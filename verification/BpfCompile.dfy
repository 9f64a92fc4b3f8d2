/**
  The capture filter compiler of src/tools/bpffilter.c, proved against the packets it must
  keep: labelled code, label fixup, and what the machine of module Bpf does with the result.
 */
module BpfCompile {
  import opened Words
  import opened Bpf

  const MAX_CODE: nat := 64      // TOOL_BPF_MAX_INSNS
  const MAX_LABELS: nat := 16    // LBL_MAX
  const NEXT: int := -1          // LBL_NEXT: fall through
  const UNPLACED: int := -1

  const ETHERTYPE_IP := 0x0800
  const ETHERTYPE_ARP := 0x0806
  const ETHERTYPE_IP6 := 0x86dd
  const IPPROTO_ICMP := 1
  const IPPROTO_TCP := 6
  const IPPROTO_UDP := 17
  const IPPROTO_ICMPV6 := 58

  // Offsets from the start of the frame.
  const ETH_TYPE: nat := 12
  const ETH_LEN: nat := 14
  const IP4_FLAGS: nat := 20
  const IP4_PROTO: nat := 23
  const IP4_SRC: nat := 26
  const IP4_DST: nat := 30
  const IP6_NEXT: nat := 20
  const IP6_SRC: nat := 22
  const IP6_DST: nat := 38
  const IP6_PORTS: nat := 54
  const ARP_PTYPE: nat := 16
  const ARP_SPA: nat := 28
  const ARP_TPA: nat := 38

  datatype Proto = AnyProto | Tcp | Udp | Icmp | Arp | Ip | Ip6

  type Addr6 = a: seq<u8> | |a| == 16 witness [0, 0, 0, 0, 0, 0, 0, 0, 0, 0, 0, 0, 0, 0, 0, 0]

  datatype Host = NoHost | Host4(v4: u32) | Host6(v6: Addr6)

  /** ToolBpfFilter; have_host/host_is_v6 and have_port are folded into the two fields. */
  datatype FilterSpec = FilterSpec(snaplen: nat, proto: Proto, host: Host, port: Option<nat>, invert: bool)

  // ---------------------------------------------------------------- which frames are wanted

  /** A frame may be cut before a field the filter asks about. */
  datatype Answer = Yes | No | Cut

  function AndThen(a: Answer, b: Answer): (r: Answer) { if a == Yes then b else a }
  function OrElse(a: Answer, b: Answer): (r: Answer) { if a == No then b else a }

  function FieldIs(fr: seq<u8>, off: nat, size: nat, want: u32): (r: Answer)
    requires size <= 4
  {
    var v := Load(fr, off, size);
    if v.None? then Cut else if v.value == want then Yes else No
  }

  function Word6(a: Addr6, i: nat): (r: u32)
    requires i < 4
  {
    BigEndianSmall(a[4 * i..4 * i + 4]);
    BigEndian(a[4 * i..4 * i + 4])
  }

  function Addr6Is(fr: seq<u8>, off: nat, a: Addr6): (r: Answer) {
    AndThen(FieldIs(fr, off, 4, Word6(a, 0)),
    AndThen(FieldIs(fr, off + 4, 4, Word6(a, 1)),
    AndThen(FieldIs(fr, off + 8, 4, Word6(a, 2)), FieldIs(fr, off + 12, 4, Word6(a, 3)))))
  }

  /** Which transport a family's protocol byte must name; None asks nothing. */
  datatype Transport = Anything | Exactly(n: u8) | TcpOrUdp

  function TransportOf(f: FilterSpec, icmp: u8): (t: Transport) {
    match f.proto
    case Tcp => Exactly(IPPROTO_TCP)
    case Udp => Exactly(IPPROTO_UDP)
    case Icmp => Exactly(icmp)
    case _ => if f.port.Some? then TcpOrUdp else Anything
  }

  function TransportIs(fr: seq<u8>, off: nat, t: Transport): (r: Answer) {
    match t
    case Anything => Yes
    case Exactly(n) => FieldIs(fr, off, 1, n)
    case TcpOrUdp => OrElse(FieldIs(fr, off, 1, IPPROTO_TCP), FieldIs(fr, off, 1, IPPROTO_UDP))
  }

  function EitherHost4(fr: seq<u8>, src: nat, dst: nat, h: u32): (r: Answer) {
    OrElse(FieldIs(fr, src, 4, h), FieldIs(fr, dst, 4, h))
  }

  /** Byte length of the IPv4 header, from the low nibble of its first byte. */
  function HeaderLen4(b: u32): (r: nat) { And32(b, 0x0F) * 4 }

  function Ports4(fr: seq<u8>, port: u32): (r: Answer) {
    var frag := Load(fr, IP4_FLAGS, 2);
    if frag.None? then Cut
    else if And32(frag.value, 0x1fff) != 0 then No      // a later fragment has no ports
    else PortsAfterHeader(fr, port)
  }

  function PortsAfterHeader(fr: seq<u8>, port: u32): (r: Answer) {
    var first := Load(fr, ETH_LEN, 1);
    if first.None? then Cut
    else
      var h := HeaderLen4(first.value);
      OrElse(FieldIs(fr, h + ETH_LEN, 2, port), FieldIs(fr, h + ETH_LEN + 2, 2, port))
  }

  function Ports6(fr: seq<u8>, port: u32): (r: Answer) {
    OrElse(FieldIs(fr, IP6_PORTS, 2, port), FieldIs(fr, IP6_PORTS + 2, 2, port))
  }

  predicate UseV4(f: FilterSpec) { f.proto != Arp && f.proto != Ip6 && !f.host.Host6? }
  predicate UseV6(f: FilterSpec) { f.proto != Arp && f.proto != Ip && !f.host.Host4? }
  predicate UseArp(f: FilterSpec) {
    (f.proto == AnyProto || f.proto == Arp) && f.port.None? && !f.host.Host6?
  }

  predicate PortOk(f: FilterSpec) { f.port.Some? ==> f.port.value <= 65535 }

  function AnswerV4(f: FilterSpec, fr: seq<u8>): (r: Answer)
    requires PortOk(f)
  {
    AndThen(TransportIs(fr, IP4_PROTO, TransportOf(f, IPPROTO_ICMP)),
    AndThen(if f.host.Host4? then EitherHost4(fr, IP4_SRC, IP4_DST, f.host.v4) else Yes,
            if f.port.Some? then Ports4(fr, f.port.value) else Yes))
  }

  function AnswerV6(f: FilterSpec, fr: seq<u8>): (r: Answer)
    requires PortOk(f)
  {
    AndThen(TransportIs(fr, IP6_NEXT, TransportOf(f, IPPROTO_ICMPV6)),
    AndThen(if f.host.Host6? then OrElse(Addr6Is(fr, IP6_SRC, f.host.v6), Addr6Is(fr, IP6_DST, f.host.v6)) else Yes,
            if f.port.Some? then Ports6(fr, f.port.value) else Yes))
  }

  function AnswerArp(f: FilterSpec, fr: seq<u8>): (r: Answer) {
    if f.host.Host4?
    then AndThen(FieldIs(fr, ARP_PTYPE, 2, ETHERTYPE_IP), EitherHost4(fr, ARP_SPA, ARP_TPA, f.host.v4))
    else Yes
  }

  predicate Trivial(f: FilterSpec) { f.proto == AnyProto && f.host.NoHost? && f.port.None? }

  /** Does the frame have what the filter asks for, as far as the captured bytes say? */
  function AnswerFor(f: FilterSpec, fr: seq<u8>): (r: Answer)
    requires PortOk(f)
  {
    if Trivial(f) then Yes
    else
      var ty := Load(fr, ETH_TYPE, 2);
      if ty.None? then Cut
      else if ty.value == ETHERTYPE_IP then if UseV4(f) then AnswerV4(f, fr) else No
      else if ty.value == ETHERTYPE_IP6 then if UseV6(f) then AnswerV6(f, fr) else No
      else if ty.value == ETHERTYPE_ARP && UseArp(f) then AnswerArp(f, fr) else No
  }

  /** Bytes of the frame to keep.  NOT swaps Yes and No; a cut frame is rejected either way. */
  function Decide(f: FilterSpec, fr: seq<u8>): (r: nat)
    requires PortOk(f)
  {
    match AnswerFor(f, fr)
    case Yes => if f.invert then 0 else f.snaplen
    case No => if f.invert then f.snaplen else 0
    case Cut => 0
  }

  // ---------------------------------------------------------------- labelled code

  /** An instruction whose jumps name labels, NEXT for falling through. */
  datatype Code = Code(code: u16, k: u32, jt: int, jf: int)

  /** The builder's value: code so far, and where each label stands. */
  datatype Asm = Asm(out: seq<Code>, pos: seq<int>)

  function Ld(code: u16, off: u32): (c: Code) { Code(code, off, NEXT, NEXT) }
  function LdB(off: u32): (c: Code) { Ld(0x30, off) }
  function LdH(off: u32): (c: Code) { Ld(0x28, off) }
  function LdW(off: u32): (c: Code) { Ld(0x20, off) }
  function LdHInd(off: u32): (c: Code) { Ld(0x48, off) }
  function LdxMsh(off: u32): (c: Code) { Ld(0xb1, off) }
  function JmpEq(k: u32, t: int, e: int): (c: Code) { Code(0x15, k, t, e) }
  function JmpSet(k: u32, t: int, e: int): (c: Code) { Code(0x45, k, t, e) }
  function JmpA(t: int): (c: Code) { Code(0x05, 0, t, NEXT) }
  function RetK(k: u32): (c: Code) { Code(0x06, k, NEXT, NEXT) }

  const ACCEPT: nat := 0
  const REJECT: nat := 1
  const L_V4: nat := 2
  const L_V6: nat := 3
  const L_ARP: nat := 4
  const FIXED_LABELS: nat := 5

  /** A gate: code that falls out of its end when it holds and jumps to REJECT when it fails. */
  datatype Gate = GTransport(off: u32, t: Transport)
                | GHost4(src: u32, dst: u32, h: u32)
                | GHost6(a: Addr6)
                | GPorts4(port: u32)
                | GPorts6(port: u32)
                | GField(off: u32, want: u32)

  /** Sixteen bytes as four words: any difference goes to `e`. */
  function Addr6Code(off: u16, a: Addr6, t: int, e: int): (c: seq<Code>)
    requires off < 100
  {
    [LdW(off), JmpEq(Word6(a, 0), NEXT, e), LdW(off + 4), JmpEq(Word6(a, 1), NEXT, e),
     LdW(off + 8), JmpEq(Word6(a, 2), NEXT, e), LdW(off + 12), JmpEq(Word6(a, 3), t, e)]
  }

  /** The gate's code, when its own labels start at `l`. */
  function GateCode(g: Gate, l: nat): (c: seq<Code>) {
    match g
    case GTransport(off, Anything) => []
    case GTransport(off, Exactly(n)) => [LdB(off), JmpEq(n, NEXT, REJECT)]
    case GTransport(off, TcpOrUdp) => [LdB(off), JmpEq(IPPROTO_TCP, l, NEXT), JmpEq(IPPROTO_UDP, NEXT, REJECT)]
    case GHost4(src, dst, h) => [LdW(src), JmpEq(h, l, NEXT), LdW(dst), JmpEq(h, NEXT, REJECT)]
    case GHost6(a) => Addr6Code(IP6_SRC, a, l + 1, l) + Addr6Code(IP6_DST, a, NEXT, REJECT)
    case GPorts4(port) =>
      [LdH(IP4_FLAGS), JmpSet(0x1fff, REJECT, NEXT), LdxMsh(ETH_LEN),
       LdHInd(ETH_LEN), JmpEq(port, l, NEXT), LdHInd(ETH_LEN + 2), JmpEq(port, NEXT, REJECT)]
    case GPorts6(port) =>
      [LdH(IP6_PORTS), JmpEq(port, l, NEXT), LdH(IP6_PORTS + 2), JmpEq(port, NEXT, REJECT)]
    case GField(off, want) => [LdH(off), JmpEq(want, NEXT, REJECT)]
  }

  /** Where the gate's own labels stand, when its code starts at `p`. */
  function GateLabels(g: Gate, p: nat): (ls: seq<int>) {
    match g
    case GTransport(off, t) => if t.TcpOrUdp? then [p + 3] else []
    case GHost4(_, _, _) => [p + 4]
    case GHost6(_) => [p + 8, p + 16]
    case GPorts4(_) => [p + 7]
    case GPorts6(_) => [p + 4]
    case GField(_, _) => []
  }

  function GateAnswer(g: Gate, fr: seq<u8>): (r: Answer) {
    match g
    case GTransport(off, t) => TransportIs(fr, off, t)
    case GHost4(src, dst, h) => EitherHost4(fr, src, dst, h)
    case GHost6(a) => OrElse(Addr6Is(fr, IP6_SRC, a), Addr6Is(fr, IP6_DST, a))
    case GPorts4(port) => Ports4(fr, port)
    case GPorts6(port) => Ports6(fr, port)
    case GField(off, want) => FieldIs(fr, off, 2, want)
  }

  function GatesV4(f: FilterSpec): (gs: seq<Gate>)
    requires PortOk(f)
  {
    [GTransport(IP4_PROTO, TransportOf(f, IPPROTO_ICMP))]
    + (if f.host.Host4? then [GHost4(IP4_SRC, IP4_DST, f.host.v4)] else [])
    + (if f.port.Some? then [GPorts4(f.port.value)] else [])
  }

  function GatesV6(f: FilterSpec): (gs: seq<Gate>)
    requires PortOk(f)
  {
    [GTransport(IP6_NEXT, TransportOf(f, IPPROTO_ICMPV6))]
    + (if f.host.Host6? then [GHost6(f.host.v6)] else [])
    + (if f.port.Some? then [GPorts6(f.port.value)] else [])
  }

  function GatesArp(f: FilterSpec): (gs: seq<Gate>) {
    if f.host.Host4? then [GField(ARP_PTYPE, ETHERTYPE_IP), GHost4(ARP_SPA, ARP_TPA, f.host.v4)] else []
  }

  function AddGate(b: Asm, g: Gate): (r: Asm) {
    Asm(b.out + GateCode(g, |b.pos|), b.pos + GateLabels(g, |b.out|))
  }

  function AddGates(b: Asm, gs: seq<Gate>): (r: Asm)
    ensures b.out <= r.out && b.pos <= r.pos
    decreases |gs|
  {
    if gs == [] then b else AddGates(AddGate(b, gs[0]), gs[1..])
  }

  function Put(b: Asm, c: Code): (r: Asm) { b.(out := b.out + [c]) }

  function PlaceLabel(b: Asm, l: nat): (r: Asm)
    requires l < |b.pos|
  {
    b.(pos := b.pos[l := |b.out|])
  }

  /** One address family: its label, its gates, and on to ACCEPT. */
  function AddBranch(b: Asm, l: nat, gs: seq<Gate>): (r: Asm)
    requires l < |b.pos|
    ensures b.out <= r.out && b.pos[l := |b.out|] <= r.pos
  {
    Put(AddGates(PlaceLabel(b, l), gs), JmpA(ACCEPT))
  }

  function Dispatch(f: FilterSpec): (c: seq<Code>) {
    [LdH(ETH_TYPE),
     JmpEq(ETHERTYPE_IP, if UseV4(f) then L_V4 else REJECT, NEXT),
     JmpEq(ETHERTYPE_IP6, if UseV6(f) then L_V6 else REJECT, NEXT),
     JmpEq(ETHERTYPE_ARP, if UseArp(f) then L_ARP else REJECT, REJECT)]
  }

  ghost predicate Compilable(f: FilterSpec) {
    1 <= f.snaplen <= 65535 && PortOk(f)
  }

  function Stage0(f: FilterSpec): (b: Asm) {
    Asm(Dispatch(f), [UNPLACED, UNPLACED, UNPLACED, UNPLACED, UNPLACED])
  }

  function Stage1(f: FilterSpec): (b: Asm)
    requires PortOk(f)
    ensures |b.pos| >= FIXED_LABELS
  {
    if UseV4(f) then AddBranch(Stage0(f), L_V4, GatesV4(f)) else Stage0(f)
  }

  function Stage2(f: FilterSpec): (b: Asm)
    requires PortOk(f)
    ensures |b.pos| >= FIXED_LABELS
  {
    if UseV6(f) then AddBranch(Stage1(f), L_V6, GatesV6(f)) else Stage1(f)
  }

  function Branches(f: FilterSpec): (b: Asm)
    requires PortOk(f)
    ensures |b.pos| >= FIXED_LABELS
  {
    if UseArp(f) then AddBranch(Stage2(f), L_ARP, GatesArp(f)) else Stage2(f)
  }

  /** The whole labelled program. */
  function Assemble(f: FilterSpec): (b: Asm)
    requires PortOk(f) && f.snaplen <= 65535
  {
    var b := Put(PlaceLabel(Branches(f), ACCEPT), RetK(if f.invert then 0 else f.snaplen));
    Put(PlaceLabel(b, REJECT), RetK(if f.invert then f.snaplen else 0))
  }

  // ---------------------------------------------------------------- labels into offsets

  /** A label that is placed ahead of instruction `i`, within a jump's reach. */
  predicate Reaches(g: Asm, i: nat, l: int, far: bool) {
    0 <= l < |g.pos| && i + 1 <= g.pos[l] < |g.out| && (far || g.pos[l] - (i + 1) <= 255)
  }

  predicate IsJump(c: Code) { Class(c.code) == JMP }
  predicate IsJa(c: Code) { IsJump(c) && Op(c.code) == JA }

  predicate JumpsOk(g: Asm, i: nat)
    requires i < |g.out|
  {
    var c := g.out[i];
    IsJump(c) ==>
      if IsJa(c) then Reaches(g, i, c.jt, true)
      else (c.jt == NEXT || Reaches(g, i, c.jt, false)) && (c.jf == NEXT || Reaches(g, i, c.jf, false))
  }

  /** Where a jump at `i` to label `l` goes. */
  function Dest(g: Asm, i: nat, l: int): (r: int) {
    if 0 <= l < |g.pos| then g.pos[l] else i + 1
  }

  /** Instruction `p` is labelled instruction `i` with its labels turned into distances. */
  ghost predicate Encodes(g: Asm, i: nat, p: Insn)
    requires i < |g.out|
  {
    var c := g.out[i];
    && p.code == c.code
    && (IsJa(c) ==> i + 1 + p.k == Dest(g, i, c.jt))
    && (!IsJa(c) ==> p.k == c.k)
    && (IsJump(c) && !IsJa(c) ==> i + 1 + p.jt == Dest(g, i, c.jt) && i + 1 + p.jf == Dest(g, i, c.jf))
  }

  ghost predicate Resolved(g: Asm, prog: seq<Insn>) {
    && |prog| == |g.out| < MAXINSNS
    && (forall i :: 0 <= i < |g.out| ==> JumpsOk(g, i))
    && (forall i :: 0 <= i < |g.out| ==> Encodes(g, i, prog[i]))
  }

  /** The label is placed, ahead of `i`, and near enough for a conditional jump. */
  predicate Fixes(g: Asm, i: nat, l: int, far: bool) {
    0 <= l < |g.pos| && g.pos[l] != UNPLACED && g.pos[l] - (i + 1) >= 0 && (far || g.pos[l] - (i + 1) <= 255)
  }

  predicate FixOk(g: Asm, i: nat)
    requires i < |g.out|
  {
    var c := g.out[i];
    IsJump(c) ==>
      if IsJa(c) then Fixes(g, i, c.jt, true)
      else (c.jt == NEXT || Fixes(g, i, c.jt, false)) && (c.jf == NEXT || Fixes(g, i, c.jf, false))
  }

  /** tool_bpf_fixup: labels into offsets, refusing an unplaced, backward or distant label. */
  method Fixup(g: Asm) returns (r: Option<seq<Insn>>)
    requires |g.out| <= MAX_CODE && LabelsBelow(g)
    ensures r.Some? <==> forall i :: 0 <= i < |g.out| ==> FixOk(g, i)
    ensures r.Some? ==> |r.value| == |g.out| && forall i :: 0 <= i < |g.out| ==> Encodes(g, i, r.value[i])
  {
    var prog: seq<Insn> := [];
    for i := 0 to |g.out|
      invariant |prog| == i
      invariant forall j :: 0 <= j < i ==> FixOk(g, j)
      invariant forall j :: 0 <= j < i ==> Encodes(g, j, prog[j])
    {
      var c := g.out[i];
      var jt, jf, k := 0, 0, c.k;
      if IsJa(c) {
        if !Fixes(g, i, c.jt, true) { assert !FixOk(g, i); return None; }
        k := g.pos[c.jt] - (i + 1);
      } else if IsJump(c) {
        if c.jt != NEXT {
          if !Fixes(g, i, c.jt, false) { assert !FixOk(g, i); return None; }
          jt := g.pos[c.jt] - (i + 1);
        }
        if c.jf != NEXT {
          if !Fixes(g, i, c.jf, false) { assert !FixOk(g, i); return None; }
          jf := g.pos[c.jf] - (i + 1);
        }
      }
      prog := prog + [Insn(c.code, jt, jf, k)];
    }
    r := Some(prog);
  }

  // ---------------------------------------------------------------- what the code does

  /** Whatever the registers hold, running from `pc` gives `v`. */
  ghost predicate AllFrom(prog: seq<Insn>, pkt: Packet, pc: int, v: Verdict) {
    0 <= pc && forall r: Regs :: Exec(prog, pkt, pc, r) == v
  }

  function Pick(a: Answer, yes: Verdict, no: Verdict): (v: Verdict) {
    match a case Yes => yes case No => no case Cut => Short
  }

  lemma LoadStep(prog: seq<Insn>, pkt: Packet, p: nat, r: Regs)
    requires p < |prog| && Class(prog[p].code) == LD && Mode(prog[p].code) == ABS && SizeBytes(prog[p].code) != 0
    ensures var v := Load(pkt.bytes, prog[p].k, SizeBytes(prog[p].code));
            Exec(prog, pkt, p, r) == if v.None? then Short else Exec(prog, pkt, p + 1, r.(a := v.value))
  {
  }

  /** One result out of AllFrom. */
  lemma Known(prog: seq<Insn>, pkt: Packet, pc: int, v: Verdict, r: Regs)
    requires AllFrom(prog, pkt, pc, v)
    ensures 0 <= pc && Exec(prog, pkt, pc, r) == v
  {
  }

  /** A conditional jump on a constant that stays inside the program. */
  lemma CondStep(prog: seq<Insn>, pkt: Packet, p: nat, r: Regs)
    requires p < |prog| && Class(prog[p].code) == JMP && Op(prog[p].code) != JA && !SrcX(prog[p].code)
    requires Taken(Op(prog[p].code), r.a, prog[p].k).Some?
    requires p + 1 + prog[p].jt <= |prog| && p + 1 + prog[p].jf <= |prog|
    ensures var i := prog[p];
      Exec(prog, pkt, p, r) == Exec(prog, pkt, p + 1 + if Taken(Op(i.code), r.a, i.k).value then i.jt else i.jf, r)
  {
    hide And32;
  }

  lemma JeqStep(g: Asm, prog: seq<Insn>, pkt: Packet, p: nat, want: u32, t: int, e: int, r: Regs)
    requires Resolved(g, prog) && p < |g.out| && g.out[p] == JmpEq(want, t, e)
    ensures Dest(g, p, t) >= 0 && Dest(g, p, e) >= 0
    ensures Exec(prog, pkt, p, r) == Exec(prog, pkt, if r.a == want then Dest(g, p, t) else Dest(g, p, e), r)
  {
    assert JumpsOk(g, p) && Encodes(g, p, prog[p]);
    hide Exec, Resolved;
    CondStep(prog, pkt, p, r);
  }

  lemma JsetStep(g: Asm, prog: seq<Insn>, pkt: Packet, p: nat, mask: u32, t: int, e: int, r: Regs)
    requires Resolved(g, prog) && p < |g.out| && g.out[p] == JmpSet(mask, t, e)
    ensures Dest(g, p, t) >= 0 && Dest(g, p, e) >= 0
    ensures Exec(prog, pkt, p, r) == Exec(prog, pkt, if And32(r.a, mask) != 0 then Dest(g, p, t) else Dest(g, p, e), r)
  {
    assert JumpsOk(g, p) && Encodes(g, p, prog[p]);
    hide Exec, Resolved, And32;
    CondStep(prog, pkt, p, r);
  }

  lemma MshStep(prog: seq<Insn>, pkt: Packet, p: nat, r: Regs)
    requires p < |prog| && Class(prog[p].code) == LDX && Mode(prog[p].code) == MSH && Size(prog[p].code) == B
    ensures var b := Load(pkt.bytes, prog[p].k, 1);
            Exec(prog, pkt, p, r) ==
            if b.None? then Short else Exec(prog, pkt, p + 1, r.(x := And32(b.value, 0x0F) * 4))
  {
  }

  /** A load and a compare ask one field. */
  lemma AskField(g: Asm, prog: seq<Insn>, pkt: Packet, p: nat, size: nat, want: u32, t: int, e: int, yes: Verdict,
                 no: Verdict)
    requires Resolved(g, prog) && p + 1 < |g.out| && 1 <= size <= 4
    requires Class(g.out[p].code) == LD && Mode(g.out[p].code) == ABS && SizeBytes(g.out[p].code) == size
    requires g.out[p + 1] == JmpEq(want, t, e)
    requires AllFrom(prog, pkt, Dest(g, p + 1, t), yes) && AllFrom(prog, pkt, Dest(g, p + 1, e), no)
    ensures AllFrom(prog, pkt, p, Pick(FieldIs(pkt.bytes, g.out[p].k, size, want), yes, no))
  {
    SameCode(g, prog, p);
    hide Exec, Resolved, Dest, Load, Class, Mode, SizeBytes;
    forall r: Regs ensures Exec(prog, pkt, p, r) == Pick(FieldIs(pkt.bytes, g.out[p].k, size, want), yes, no) {
      AskOne(g, prog, pkt, p, size, want, t, e, r, yes, no);
    }
  }

  /** The load, and the comparison when there was something to load. */
  lemma AskOne(g: Asm, prog: seq<Insn>, pkt: Packet, p: nat, size: nat, want: u32, t: int, e: int, r: Regs,
               yes: Verdict, no: Verdict)
    requires Resolved(g, prog) && p + 1 < |g.out| && 1 <= size <= 4
    requires p + 1 < |prog| && prog[p].code == g.out[p].code && prog[p].k == g.out[p].k
    requires Class(g.out[p].code) == LD && Mode(g.out[p].code) == ABS && SizeBytes(g.out[p].code) == size
    requires g.out[p + 1] == JmpEq(want, t, e)
    requires AllFrom(prog, pkt, Dest(g, p + 1, t), yes) && AllFrom(prog, pkt, Dest(g, p + 1, e), no)
    ensures Exec(prog, pkt, p, r) == Pick(FieldIs(pkt.bytes, g.out[p].k, size, want), yes, no)
  {
    LoadStep(prog, pkt, p, r);
    hide Exec, Resolved, Dest, Load, Class, Mode, SizeBytes;
    var v := Load(pkt.bytes, g.out[p].k, size);
    if v.Some? { JeqStep(g, prog, pkt, p + 1, want, t, e, r.(a := v.value)); }
  }

  ghost predicate CodeAt(g: Asm, p: nat, c: seq<Code>) {
    p + |c| <= |g.out| && forall i :: 0 <= i < |c| ==> g.out[p + i] == c[i]
  }

  ghost predicate LabelsAt(g: Asm, l: nat, ls: seq<int>) {
    l + |ls| <= |g.pos| && forall i :: 0 <= i < |ls| ==> g.pos[l + i] == ls[i]
  }

  lemma CodeSplit(g: Asm, p: nat, c: seq<Code>, d: seq<Code>)
    requires CodeAt(g, p, c + d)
    ensures CodeAt(g, p, c) && CodeAt(g, p + |c|, d)
  {
    assert forall i :: 0 <= i < |c| ==> c[i] == (c + d)[i];
    assert forall i :: 0 <= i < |d| ==> d[i] == (c + d)[|c| + i] == g.out[p + (|c| + i)];
  }

  /** A gate stands at `p` in a resolved program, and running past it or to REJECT is known. */
  ghost predicate GateSits(g: Asm, prog: seq<Insn>, pkt: Packet, gate: Gate, p: nat, l: nat, yes: Verdict,
                           no: Verdict) {
    && Resolved(g, prog) && |g.pos| >= FIXED_LABELS && l >= FIXED_LABELS
    && CodeAt(g, p, GateCode(gate, l)) && LabelsAt(g, l, GateLabels(gate, p))
    && AllFrom(prog, pkt, p + |GateCode(gate, l)|, yes) && AllFrom(prog, pkt, g.pos[REJECT], no)
  }

  /** One load, two compares of the same byte. */
  lemma TcpOrUdpFrom(g: Asm, prog: seq<Insn>, pkt: Packet, off: u32, p: nat, l: nat, r: Regs, yes: Verdict, no: Verdict)
    requires Resolved(g, prog) && p + 2 < |g.out| && REJECT < |g.pos| && l < |g.pos| && g.pos[l] == p + 3
    requires g.out[p] == LdB(off) && g.out[p + 1] == JmpEq(IPPROTO_TCP, l, NEXT)
    requires g.out[p + 2] == JmpEq(IPPROTO_UDP, NEXT, REJECT)
    requires AllFrom(prog, pkt, p + 3, yes) && AllFrom(prog, pkt, g.pos[REJECT], no)
    ensures Exec(prog, pkt, p, r) == Pick(TransportIs(pkt.bytes, off, TcpOrUdp), yes, no)
  {
    SameCode(g, prog, p);
    assert SizeBytes(LdB(off).code) == 1;
    LoadStep(prog, pkt, p, r);
    hide Exec, Resolved, Load, AllFrom;
    var v := Load(pkt.bytes, off, 1);
    if v.Some? {
      TwoCompares(g, prog, pkt, p + 1, IPPROTO_TCP, IPPROTO_UDP, l, r.(a := v.value), yes, no);
    }
  }

  /** Two compares of what is in A: either value passes. */
  lemma TwoCompares(g: Asm, prog: seq<Insn>, pkt: Packet, p: nat, m: u32, n: u32, l: nat, r: Regs, yes: Verdict,
                    no: Verdict)
    requires Resolved(g, prog) && p + 1 < |g.out| && REJECT < |g.pos| && l < |g.pos| && g.pos[l] == p + 2
    requires g.out[p] == JmpEq(m, l, NEXT) && g.out[p + 1] == JmpEq(n, NEXT, REJECT)
    requires AllFrom(prog, pkt, p + 2, yes) && AllFrom(prog, pkt, g.pos[REJECT], no)
    ensures Exec(prog, pkt, p, r) == if r.a == m || r.a == n then yes else no
  {
    hide Exec, Resolved, AllFrom;
    JeqStep(g, prog, pkt, p, m, l, NEXT, r);
    JeqStep(g, prog, pkt, p + 1, n, NEXT, REJECT, r);
    Known(prog, pkt, p + 2, yes, r);
    Known(prog, pkt, g.pos[REJECT], no, r);
  }

  lemma TransportRuns(g: Asm, prog: seq<Insn>, pkt: Packet, gate: Gate, p: nat, l: nat, yes: Verdict, no: Verdict)
    requires gate.GTransport? && GateSits(g, prog, pkt, gate, p, l, yes, no)
    ensures AllFrom(prog, pkt, p, Pick(GateAnswer(gate, pkt.bytes), yes, no))
  {
    var c := GateCode(gate, l);
    match gate.t
    case Anything =>
    case Exactly(n) =>
      assert g.out[p + 0] == c[0] && g.out[p + 1] == c[1];
      AskField(g, prog, pkt, p, 1, n, NEXT, REJECT, yes, no);
    case TcpOrUdp =>
      assert g.out[p + 0] == c[0] && g.out[p + 1] == c[1] && g.out[p + 2] == c[2];
      assert GateLabels(gate, p)[0] == g.pos[l + 0] == p + 3;
      forall r: Regs ensures Exec(prog, pkt, p, r) == Pick(GateAnswer(gate, pkt.bytes), yes, no) {
        TcpOrUdpFrom(g, prog, pkt, gate.off, p, l, r, yes, no);
      }
  }

  lemma Host4Runs(g: Asm, prog: seq<Insn>, pkt: Packet, gate: Gate, p: nat, l: nat, yes: Verdict, no: Verdict)
    requires gate.GHost4? && GateSits(g, prog, pkt, gate, p, l, yes, no)
    ensures AllFrom(prog, pkt, p, Pick(GateAnswer(gate, pkt.bytes), yes, no))
  {
    var c := GateCode(gate, l);
    assert g.out[p + 0] == c[0] && g.out[p + 1] == c[1] && g.out[p + 2] == c[2] && g.out[p + 3] == c[3];
    assert GateLabels(gate, p)[0] == g.pos[l + 0] == p + 4;
    AskField(g, prog, pkt, p + 2, 4, gate.h, NEXT, REJECT, yes, no);
    AskField(g, prog, pkt, p, 4, gate.h, l, NEXT, yes, Pick(FieldIs(pkt.bytes, gate.dst, 4, gate.h), yes, no));
  }

  lemma Ports6Runs(g: Asm, prog: seq<Insn>, pkt: Packet, gate: Gate, p: nat, l: nat, yes: Verdict, no: Verdict)
    requires gate.GPorts6? && GateSits(g, prog, pkt, gate, p, l, yes, no)
    ensures AllFrom(prog, pkt, p, Pick(GateAnswer(gate, pkt.bytes), yes, no))
  {
    var c := GateCode(gate, l);
    assert g.out[p + 0] == c[0] && g.out[p + 1] == c[1] && g.out[p + 2] == c[2] && g.out[p + 3] == c[3];
    assert GateLabels(gate, p)[0] == g.pos[l + 0] == p + 4;
    AskField(g, prog, pkt, p + 2, 2, gate.port, NEXT, REJECT, yes, no);
    var other := Pick(FieldIs(pkt.bytes, IP6_PORTS + 2, 2, gate.port), yes, no);
    AskField(g, prog, pkt, p, 2, gate.port, l, NEXT, yes, other);
  }

  lemma FieldRuns(g: Asm, prog: seq<Insn>, pkt: Packet, gate: Gate, p: nat, l: nat, yes: Verdict, no: Verdict)
    requires gate.GField? && GateSits(g, prog, pkt, gate, p, l, yes, no)
    ensures AllFrom(prog, pkt, p, Pick(GateAnswer(gate, pkt.bytes), yes, no))
  {
    var c := GateCode(gate, l);
    assert g.out[p + 0] == c[0] && g.out[p + 1] == c[1];
    AskField(g, prog, pkt, p, 2, gate.want, NEXT, REJECT, yes, no);
  }

  /** Four words in a row: all equal falls to `t` of the last, any difference goes to `e`. */
  lemma AskAddr6(g: Asm, prog: seq<Insn>, pkt: Packet, p: nat, off: nat, a: Addr6, t: int, e: int, yes: Verdict,
                 no: Verdict)
    requires Resolved(g, prog) && off < 100
    requires CodeAt(g, p, Addr6Code(off, a, t, e))
    requires 0 <= e < |g.pos| && AllFrom(prog, pkt, g.pos[e], no)
    requires AllFrom(prog, pkt, Dest(g, p + 7, t), yes)
    ensures AllFrom(prog, pkt, p, Pick(Addr6Is(pkt.bytes, off, a), yes, no))
  {
    var c := Addr6Code(off, a, t, e);
    assert g.out[p + 0] == c[0] && g.out[p + 1] == c[1] && g.out[p + 2] == c[2] && g.out[p + 3] == c[3];
    assert g.out[p + 4] == c[4] && g.out[p + 5] == c[5] && g.out[p + 6] == c[6] && g.out[p + 7] == c[7];
    AskField(g, prog, pkt, p + 6, 4, Word6(a, 3), t, e, yes, no);
    var y3 := Pick(FieldIs(pkt.bytes, off + 12, 4, Word6(a, 3)), yes, no);
    AskField(g, prog, pkt, p + 4, 4, Word6(a, 2), NEXT, e, y3, no);
    var y2 := Pick(FieldIs(pkt.bytes, off + 8, 4, Word6(a, 2)), y3, no);
    AskField(g, prog, pkt, p + 2, 4, Word6(a, 1), NEXT, e, y2, no);
    var y1 := Pick(FieldIs(pkt.bytes, off + 4, 4, Word6(a, 1)), y2, no);
    AskField(g, prog, pkt, p, 4, Word6(a, 0), NEXT, e, y1, no);
  }

  lemma Host6Runs(g: Asm, prog: seq<Insn>, pkt: Packet, gate: Gate, p: nat, l: nat, yes: Verdict, no: Verdict)
    requires gate.GHost6? && GateSits(g, prog, pkt, gate, p, l, yes, no)
    ensures AllFrom(prog, pkt, p, Pick(GateAnswer(gate, pkt.bytes), yes, no))
  {
    var c, a := GateCode(gate, l), gate.a;
    assert GateLabels(gate, p)[0] == g.pos[l + 0] == p + 8 && GateLabels(gate, p)[1] == g.pos[l + 1] == p + 16;
    CodeSplit(g, p, Addr6Code(IP6_SRC, a, l + 1, l), Addr6Code(IP6_DST, a, NEXT, REJECT));
    AskAddr6(g, prog, pkt, p + 8, IP6_DST, a, NEXT, REJECT, yes, no);
    AskAddr6(g, prog, pkt, p, IP6_SRC, a, l + 1, l, yes, Pick(Addr6Is(pkt.bytes, IP6_DST, a), yes, no));
  }

  /** With X the IPv4 header length, an indexed load and compare ask one port. */
  lemma AskPort4(g: Asm, prog: seq<Insn>, pkt: Packet, p: nat, port: u32, t: int, e: int, r: Regs) returns (r': Regs)
    requires Resolved(g, prog) && p + 1 < |g.out| && r.x < 100
    requires Class(g.out[p].code) == LD && Mode(g.out[p].code) == IND && SizeBytes(g.out[p].code) == 2
    requires g.out[p].k < 100
    requires g.out[p + 1] == JmpEq(port, t, e)
    ensures r'.x == r.x && Dest(g, p + 1, t) >= 0 && Dest(g, p + 1, e) >= 0
    ensures Exec(prog, pkt, p, r) == match FieldIs(pkt.bytes, r.x + g.out[p].k, 2, port)
                                     case Yes => Exec(prog, pkt, Dest(g, p + 1, t), r')
                                     case No => Exec(prog, pkt, Dest(g, p + 1, e), r')
                                     case Cut => Short
  {
    var v := Load(pkt.bytes, r.x + g.out[p].k, 2);
    r' := if v.Some? then r.(a := v.value) else r;
    JeqStep(g, prog, pkt, p + 1, port, t, e, r');
  }

  /** The two port loads and compares, once X holds the header length. */
  lemma PortPair(g: Asm, prog: seq<Insn>, pkt: Packet, p: nat, port: u32, l: int, r: Regs, yes: Verdict, no: Verdict)
    requires Resolved(g, prog) && p + 3 < |g.out| && r.x < 100
    requires g.out[p] == LdHInd(ETH_LEN) && g.out[p + 1] == JmpEq(port, l, NEXT)
    requires g.out[p + 2] == LdHInd(ETH_LEN + 2) && g.out[p + 3] == JmpEq(port, NEXT, REJECT)
    requires AllFrom(prog, pkt, Dest(g, p + 1, l), yes) && AllFrom(prog, pkt, p + 4, yes)
    requires AllFrom(prog, pkt, Dest(g, p + 3, REJECT), no)
    ensures Exec(prog, pkt, p, r) ==
      Pick(OrElse(FieldIs(pkt.bytes, r.x + ETH_LEN, 2, port), FieldIs(pkt.bytes, r.x + ETH_LEN + 2, 2, port)), yes, no)
  {
    hide Exec, Resolved, AllFrom, FieldIs;
    var r2 := AskPort4(g, prog, pkt, p, port, l, NEXT, r);
    var r3 := AskPort4(g, prog, pkt, p + 2, port, NEXT, REJECT, r2);
    Known(prog, pkt, Dest(g, p + 1, l), yes, r2);
    Known(prog, pkt, p + 4, yes, r3);
    Known(prog, pkt, Dest(g, p + 3, REJECT), no, r3);
  }

  lemma Ports4Runs(g: Asm, prog: seq<Insn>, pkt: Packet, gate: Gate, p: nat, l: nat, yes: Verdict, no: Verdict)
    requires gate.GPorts4? && GateSits(g, prog, pkt, gate, p, l, yes, no)
    ensures AllFrom(prog, pkt, p, Pick(GateAnswer(gate, pkt.bytes), yes, no))
  {
    var c := GateCode(gate, l);
    assert g.out[p + 0] == c[0] && g.out[p + 1] == c[1] && g.out[p + 2] == c[2] && g.out[p + 3] == c[3];
    assert g.out[p + 4] == c[4] && g.out[p + 5] == c[5] && g.out[p + 6] == c[6];
    assert GateLabels(gate, p)[0] == g.pos[l + 0] == p + 7;
    forall r: Regs ensures Exec(prog, pkt, p, r) == Pick(Ports4(pkt.bytes, gate.port), yes, no) {
      Ports4From(g, prog, pkt, p, gate.port, l, r, yes, no);
    }
  }

  lemma Ports4From(g: Asm, prog: seq<Insn>, pkt: Packet, p: nat, port: u32, l: nat, r: Regs, yes: Verdict, no: Verdict)
    requires Resolved(g, prog) && p + 6 < |g.out| && REJECT < |g.pos| && l < |g.pos| && g.pos[l] == p + 7
    requires g.out[p] == LdH(IP4_FLAGS) && g.out[p + 1] == JmpSet(0x1fff, REJECT, NEXT)
    requires g.out[p + 2] == LdxMsh(ETH_LEN)
    requires g.out[p + 3] == LdHInd(ETH_LEN) && g.out[p + 4] == JmpEq(port, l, NEXT)
    requires g.out[p + 5] == LdHInd(ETH_LEN + 2) && g.out[p + 6] == JmpEq(port, NEXT, REJECT)
    requires AllFrom(prog, pkt, p + 7, yes) && AllFrom(prog, pkt, g.pos[REJECT], no)
    ensures Exec(prog, pkt, p, r) == Pick(Ports4(pkt.bytes, port), yes, no)
  {
    SameCode(g, prog, p);
    assert SizeBytes(LdH(IP4_FLAGS).code) == 2;
    LoadStep(prog, pkt, p, r);
    hide Exec, Resolved, Load, And32, FieldIs, AllFrom, PortsAfterHeader;
    var frag := Load(pkt.bytes, IP4_FLAGS, 2);
    if frag.Some? {
      JsetStep(g, prog, pkt, p + 1, 0x1fff, REJECT, NEXT, r.(a := frag.value));
      Known(prog, pkt, g.pos[REJECT], no, r.(a := frag.value));
      if And32(frag.value, 0x1fff) == 0 {
        IndexedPorts(g, prog, pkt, p + 2, port, l, r.(a := frag.value), yes, no);
      }
    }
  }

  lemma IndexedPorts(g: Asm, prog: seq<Insn>, pkt: Packet, p: nat, port: u32, l: nat, r: Regs, yes: Verdict,
                     no: Verdict)
    requires Resolved(g, prog) && p + 4 < |g.out| && REJECT < |g.pos| && l < |g.pos| && g.pos[l] == p + 5
    requires g.out[p] == LdxMsh(ETH_LEN) && g.out[p + 1] == LdHInd(ETH_LEN) && g.out[p + 2] == JmpEq(port, l, NEXT)
    requires g.out[p + 3] == LdHInd(ETH_LEN + 2) && g.out[p + 4] == JmpEq(port, NEXT, REJECT)
    requires AllFrom(prog, pkt, p + 5, yes) && AllFrom(prog, pkt, g.pos[REJECT], no)
    ensures Exec(prog, pkt, p, r) == Pick(PortsAfterHeader(pkt.bytes, port), yes, no)
  {
    IndexedDests(g, p, l);
    assert |g.out| == |prog|;
    hide Exec, Resolved, AllFrom, Load, And32, FieldIs, OrElse, Dest, HeaderLen4, LdxMsh, LdHInd, JmpEq;
    MshAt(g, prog, pkt, p, r);
    var first := Load(pkt.bytes, ETH_LEN, 1);
    if first.Some? {
      HeaderLenSmall(first.value);
      PortPair(g, prog, pkt, p + 1, port, l, r.(x := HeaderLen4(first.value)), yes, no);
    }
  }

  lemma IndexedDests(g: Asm, p: nat, l: nat)
    requires REJECT < |g.pos| && l < |g.pos|
    ensures Dest(g, p + 2, l) == g.pos[l] && Dest(g, p + 4, REJECT) == g.pos[REJECT]
    ensures Dest(g, p + 2, NEXT) == p + 3 && Dest(g, p + 4, NEXT) == p + 5
  {
  }

  lemma MshAt(g: Asm, prog: seq<Insn>, pkt: Packet, p: nat, r: Regs)
    requires Resolved(g, prog) && p < |g.out| && g.out[p] == LdxMsh(ETH_LEN)
    ensures var first := Load(pkt.bytes, ETH_LEN, 1);
      Exec(prog, pkt, p, r) ==
        if first.None? then Short else Exec(prog, pkt, p + 1, r.(x := And32(first.value, 0x0F) * 4))
  {
    hide Exec, Load, And32;
    SameCode(g, prog, p);
    MshStep(prog, pkt, p, r);
  }

  lemma HeaderLenSmall(b: u32)
    ensures HeaderLen4(b) == And32(b, 0x0F) * 4 <= 60
  {
    hide And;
  }

  lemma SameCode(g: Asm, prog: seq<Insn>, i: nat)
    requires Resolved(g, prog) && i < |prog|
    ensures prog[i].code == g.out[i].code && (!IsJa(g.out[i]) ==> prog[i].k == g.out[i].k)
  {
    assert Encodes(g, i, prog[i]);
  }

  lemma GateRuns(g: Asm, prog: seq<Insn>, pkt: Packet, gate: Gate, p: nat, l: nat, yes: Verdict, no: Verdict)
    requires GateSits(g, prog, pkt, gate, p, l, yes, no)
    ensures AllFrom(prog, pkt, p, Pick(GateAnswer(gate, pkt.bytes), yes, no))
  {
    match gate
    case GTransport(_, _) => TransportRuns(g, prog, pkt, gate, p, l, yes, no);
    case GHost4(_, _, _) => Host4Runs(g, prog, pkt, gate, p, l, yes, no);
    case GHost6(_) => Host6Runs(g, prog, pkt, gate, p, l, yes, no);
    case GPorts4(_) => Ports4Runs(g, prog, pkt, gate, p, l, yes, no);
    case GPorts6(_) => Ports6Runs(g, prog, pkt, gate, p, l, yes, no);
    case GField(_, _) => FieldRuns(g, prog, pkt, gate, p, l, yes, no);
  }

  // ---------------------------------------------------------------- whole programs

  /** `g` continues `b`: more code, more labels, and only the five fixed labels moved. */
  ghost predicate Within(b: Asm, g: Asm) {
    && b.out <= g.out
    && FIXED_LABELS <= |b.pos| <= |g.pos|
    && forall l :: FIXED_LABELS <= l < |b.pos| ==> g.pos[l] == b.pos[l]
  }

  lemma WithinTransitive(a: Asm, b: Asm, c: Asm)
    requires Within(a, b) && Within(b, c)
    ensures Within(a, c)
  {
  }

  lemma GateWithin(b: Asm, gate: Gate, g: Asm)
    requires |b.pos| >= FIXED_LABELS && Within(AddGate(b, gate), g)
    ensures CodeAt(g, |b.out|, GateCode(gate, |b.pos|)) && LabelsAt(g, |b.pos|, GateLabels(gate, |b.out|))
  {
    var r := AddGate(b, gate);
    assert forall i :: 0 <= i < |r.out| ==> g.out[i] == r.out[i];
  }

  function GatesAnswer(gs: seq<Gate>, fr: seq<u8>): (r: Answer) {
    if gs == [] then Yes else AndThen(GateAnswer(gs[0], fr), GatesAnswer(gs[1..], fr))
  }

  /** A row of gates asks them in order. */
  lemma {:induction false} GatesRun(g: Asm, prog: seq<Insn>, pkt: Packet, b: Asm, gs: seq<Gate>, yes: Verdict,
                                    no: Verdict)
    requires Resolved(g, prog) && |b.pos| >= FIXED_LABELS && Within(AddGates(b, gs), g)
    requires AllFrom(prog, pkt, |AddGates(b, gs).out|, yes) && AllFrom(prog, pkt, g.pos[REJECT], no)
    ensures AllFrom(prog, pkt, |b.out|, Pick(GatesAnswer(gs, pkt.bytes), yes, no))
    decreases |gs|
  {
    hide Resolved, AllFrom, CodeAt, LabelsAt, GateCode, GateLabels, GateAnswer;
    if gs != [] {
      var b1 := AddGate(b, gs[0]);
      GatesRun(g, prog, pkt, b1, gs[1..], yes, no);
      WithinTransitive(b1, AddGates(b1, gs[1..]), g);
      GateWithin(b, gs[0], g);
      GateRuns(g, prog, pkt, gs[0], |b.out|, |b.pos|, Pick(GatesAnswer(gs[1..], pkt.bytes), yes, no), no);
    }
  }

  lemma JaStep(g: Asm, prog: seq<Insn>, pkt: Packet, p: nat, l: nat, yes: Verdict)
    requires Resolved(g, prog) && p < |g.out| && g.out[p] == JmpA(l) && l < |g.pos| && AllFrom(prog, pkt, g.pos[l], yes)
    ensures AllFrom(prog, pkt, p, yes)
  {
    assert JumpsOk(g, p) && Encodes(g, p, prog[p]);
  }

  lemma BranchRuns(g: Asm, prog: seq<Insn>, pkt: Packet, b: Asm, l: nat, gs: seq<Gate>, yes: Verdict, no: Verdict)
    requires Resolved(g, prog) && l < FIXED_LABELS <= |b.pos| && Within(AddBranch(b, l, gs), g)
    requires AllFrom(prog, pkt, g.pos[ACCEPT], yes) && AllFrom(prog, pkt, g.pos[REJECT], no)
    ensures AllFrom(prog, pkt, |b.out|, Pick(GatesAnswer(gs, pkt.bytes), yes, no))
  {
    hide Resolved, Exec, AllFrom;
    var b1 := PlaceLabel(b, l);
    var b2 := AddGates(b1, gs);
    var b3 := AddBranch(b, l, gs);
    assert g.out[|b2.out|] == b3.out[|b2.out|] == JmpA(ACCEPT);
    JaStep(g, prog, pkt, |b2.out|, ACCEPT, yes);
    WithinTransitive(b2, b3, g);
    GatesRun(g, prog, pkt, b1, gs, yes, no);
  }

  /** Where the fixed labels end up, and that every stage is part of the whole. */
  lemma AssembleShape(f: FilterSpec)
    requires Compilable(f)
    ensures var g := Assemble(f);
      && Within(Stage0(f), g) && Within(Stage1(f), g) && Within(Stage2(f), g) && Within(Branches(f), g)
      && |g.out| == |Branches(f).out| + 2
      && g.pos[ACCEPT] == |g.out| - 2 && g.pos[REJECT] == |g.out| - 1
      && g.out[|g.out| - 2] == RetK(if f.invert then 0 else f.snaplen)
      && g.out[|g.out| - 1] == RetK(if f.invert then f.snaplen else 0)
      && (UseV4(f) ==> g.pos[L_V4] == |Stage0(f).out|)
      && (UseV6(f) ==> g.pos[L_V6] == |Stage1(f).out|)
      && (UseArp(f) ==> g.pos[L_ARP] == |Stage2(f).out|)
  {
    hide AddGates, GatesV4, GatesV6, GatesArp;
    var g, b3 := Assemble(f), Branches(f);
    assert Within(b3, g);
    assert Within(Stage2(f), b3) && Within(Stage1(f), Stage2(f)) && Within(Stage0(f), Stage1(f));
  }

  /** With `a` in the accumulator, running from `pc` gives `v`. */
  ghost predicate FromA(prog: seq<Insn>, pkt: Packet, pc: int, a: u32, v: Verdict) {
    0 <= pc && forall r: Regs :: r.a == a ==> Exec(prog, pkt, pc, r) == v
  }

  lemma AskType(g: Asm, prog: seq<Insn>, pkt: Packet, p: nat, want: u32, t: int, e: int, a: u32, yes: Verdict,
                no: Verdict)
    requires Resolved(g, prog) && p < |g.out| && g.out[p] == JmpEq(want, t, e)
    requires AllFrom(prog, pkt, Dest(g, p, t), yes) && FromA(prog, pkt, Dest(g, p, e), a, no)
    ensures FromA(prog, pkt, p, a, if a == want then yes else no)
  {
    forall r: Regs | r.a == a ensures Exec(prog, pkt, p, r) == if a == want then yes else no {
      JeqStep(g, prog, pkt, p, want, t, e, r);
    }
  }

  /** The three-way dispatch on the Ethernet type. */
  lemma DispatchRuns(g: Asm, prog: seq<Insn>, pkt: Packet, f: FilterSpec, v4: Verdict, v6: Verdict, arp: Verdict,
                     no: Verdict)
    requires Resolved(g, prog) && |g.pos| >= FIXED_LABELS && Dispatch(f) <= g.out
    requires AllFrom(prog, pkt, g.pos[if UseV4(f) then L_V4 else REJECT], v4)
    requires AllFrom(prog, pkt, g.pos[if UseV6(f) then L_V6 else REJECT], v6)
    requires AllFrom(prog, pkt, g.pos[if UseArp(f) then L_ARP else REJECT], arp)
    requires AllFrom(prog, pkt, g.pos[REJECT], no)
    ensures Exec(prog, pkt, 0, ZERO_REGS) ==
      var ty := Load(pkt.bytes, ETH_TYPE, 2);
      if ty.None? then Short
      else if ty.value == ETHERTYPE_IP then v4 else if ty.value == ETHERTYPE_IP6 then v6
      else if ty.value == ETHERTYPE_ARP then arp else no
  {
    var d := Dispatch(f);
    assert g.out[0] == d[0] && g.out[1] == d[1] && g.out[2] == d[2] && g.out[3] == d[3];
    SameCode(g, prog, 0);
    LoadStep(prog, pkt, 0, ZERO_REGS);
    hide Resolved, Exec, Load, Dispatch;
    var ty := Load(pkt.bytes, ETH_TYPE, 2);
    if ty.Some? {
      var a := ty.value;
      assert FromA(prog, pkt, g.pos[REJECT], a, no);
      hide AllFrom;
      var v3 := if a == ETHERTYPE_ARP then arp else no;
      AskType(g, prog, pkt, 3, ETHERTYPE_ARP, if UseArp(f) then L_ARP else REJECT, REJECT, a, arp, no);
      var v2 := if a == ETHERTYPE_IP6 then v6 else v3;
      AskType(g, prog, pkt, 2, ETHERTYPE_IP6, if UseV6(f) then L_V6 else REJECT, NEXT, a, v6, v3);
      AskType(g, prog, pkt, 1, ETHERTYPE_IP, if UseV4(f) then L_V4 else REJECT, NEXT, a, v4, v2);
    }
  }

  lemma RetStep(g: Asm, prog: seq<Insn>, pkt: Packet, p: nat, k: u32)
    requires Resolved(g, prog) && p < |g.out| && g.out[p] == RetK(k)
    ensures AllFrom(prog, pkt, p, Keep(k))
  {
    SameCode(g, prog, p);
  }

  lemma GatesAnswers(f: FilterSpec, fr: seq<u8>)
    requires PortOk(f)
    ensures UseV4(f) ==> GatesAnswer(GatesV4(f), fr) == AnswerV4(f, fr)
    ensures UseV6(f) ==> GatesAnswer(GatesV6(f), fr) == AnswerV6(f, fr)
    ensures UseArp(f) ==> GatesAnswer(GatesArp(f), fr) == AnswerArp(f, fr)
  {
    hide TransportIs, EitherHost4, Addr6Is, Ports4, Ports6, FieldIs;
    var gs := GatesV4(f);
    assert GatesAnswer(gs, fr) == AndThen(GateAnswer(gs[0], fr), GatesAnswer(gs[1..], fr));
    assert |gs| > 1 ==> GatesAnswer(gs[1..], fr) == AndThen(GateAnswer(gs[1], fr), GatesAnswer(gs[2..], fr));
    assert |gs| > 2 ==> GatesAnswer(gs[2..], fr) == AndThen(GateAnswer(gs[2], fr), GatesAnswer(gs[3..], fr));
    var hs := GatesV6(f);
    assert GatesAnswer(hs, fr) == AndThen(GateAnswer(hs[0], fr), GatesAnswer(hs[1..], fr));
    assert |hs| > 1 ==> GatesAnswer(hs[1..], fr) == AndThen(GateAnswer(hs[1], fr), GatesAnswer(hs[2..], fr));
    assert |hs| > 2 ==> GatesAnswer(hs[2..], fr) == AndThen(GateAnswer(hs[2], fr), GatesAnswer(hs[3..], fr));
    var arps := GatesArp(f);
    assert |arps| > 0 ==> GatesAnswer(arps, fr) == AndThen(GateAnswer(arps[0], fr), GatesAnswer(arps[1..], fr));
    assert |arps| > 1 ==> GatesAnswer(arps[1..], fr) == AndThen(GateAnswer(arps[1], fr), GatesAnswer(arps[2..], fr));
  }

  /** The verdict of a family of frames: that of its gates when the filter lets it in. */
  ghost function FamilyVerdict(uses: bool, a: Answer, yes: Verdict, no: Verdict): (v: Verdict) {
    if uses then Pick(a, yes, no) else no
  }

  lemma AssembledRuns(f: FilterSpec, prog: seq<Insn>, pkt: Packet, yes: Verdict, no: Verdict)
    requires Compilable(f) && !Trivial(f) && Resolved(Assemble(f), prog)
    requires yes == Keep(if f.invert then 0 else f.snaplen) && no == Keep(if f.invert then f.snaplen else 0)
    ensures Exec(prog, pkt, 0, ZERO_REGS) ==
      var ty := Load(pkt.bytes, ETH_TYPE, 2);
      if ty.None? then Short
      else if ty.value == ETHERTYPE_IP then FamilyVerdict(UseV4(f), GatesAnswer(GatesV4(f), pkt.bytes), yes, no)
      else if ty.value == ETHERTYPE_IP6 then FamilyVerdict(UseV6(f), GatesAnswer(GatesV6(f), pkt.bytes), yes, no)
      else if ty.value == ETHERTYPE_ARP then FamilyVerdict(UseArp(f), GatesAnswer(GatesArp(f), pkt.bytes), yes, no)
      else no
  {
    hide Resolved, Exec, AllFrom, AddGates, Assemble, GateAnswer, GatesAnswer, GatesV4, GatesV6, GatesArp, Load;
    var g := Assemble(f);
    AssembleShape(f);
    RetStep(g, prog, pkt, |g.out| - 2, yes.n);
    RetStep(g, prog, pkt, |g.out| - 1, no.n);
    if UseV4(f) {
      BranchRuns(g, prog, pkt, Stage0(f), L_V4, GatesV4(f), yes, no);
    }
    if UseV6(f) {
      BranchRuns(g, prog, pkt, Stage1(f), L_V6, GatesV6(f), yes, no);
    }
    if UseArp(f) {
      BranchRuns(g, prog, pkt, Stage2(f), L_ARP, GatesArp(f), yes, no);
    }
    DispatchRuns(g, prog, pkt, f,
                 FamilyVerdict(UseV4(f), GatesAnswer(GatesV4(f), pkt.bytes), yes, no),
                 FamilyVerdict(UseV6(f), GatesAnswer(GatesV6(f), pkt.bytes), yes, no),
                 FamilyVerdict(UseArp(f), GatesAnswer(GatesArp(f), pkt.bytes), yes, no), no);
  }

  /** The assembled program, run on any packet, decides it as the filter says. */
  lemma AssembledDecides(f: FilterSpec, prog: seq<Insn>, pkt: Packet)
    requires Compilable(f) && !Trivial(f) && Resolved(Assemble(f), prog)
    ensures Exec(prog, pkt, 0, ZERO_REGS).Value() == Decide(f, pkt.bytes)
  {
    hide Resolved, Exec, Assemble, GatesAnswer, GatesV4, GatesV6, GatesArp, Load, AnswerV4, AnswerV6, AnswerArp;
    GatesAnswers(f, pkt.bytes);
    var yes, no := Keep(if f.invert then 0 else f.snaplen), Keep(if f.invert then f.snaplen else 0);
    AssembledRuns(f, prog, pkt, yes, no);
  }

  // ---------------------------------------------------------------- every jump is forward and near

  ghost predicate JumpsOkIn(g: Asm, lo: nat, hi: nat) {
    hi <= |g.out| && forall i :: lo <= i < hi ==> JumpsOk(g, i)
  }

  /** A gate's own labels lie within or right after it, and REJECT is the last instruction. */
  lemma GateJumps(g: Asm, gate: Gate, p: nat, l: nat)
    requires l >= FIXED_LABELS && CodeAt(g, p, GateCode(gate, l)) && LabelsAt(g, l, GateLabels(gate, p))
    requires p + |GateCode(gate, l)| < |g.out| <= MAX_CODE && g.pos[REJECT] == |g.out| - 1
    ensures JumpsOkIn(g, p, p + |GateCode(gate, l)|)
  {
    var c, ls := GateCode(gate, l), GateLabels(gate, p);
    assert |ls| > 0 ==> g.pos[l + 0] == ls[0];
    assert |ls| > 1 ==> g.pos[l + 1] == ls[1];
    forall i | p <= i < p + |c| ensures JumpsOk(g, i) {
      assert g.out[p + (i - p)] == c[i - p];
      GateCodeJumps(gate, l, p, i - p);
      hide GateCode, GateLabels, CodeAt, LabelsAt;
    }
  }

  /** A gate's instructions name only its own labels, ahead of them, and REJECT. */
  lemma GateCodeJumps(gate: Gate, l: nat, p: nat, k: nat)
    requires k < |GateCode(gate, l)|
    ensures var c, ls := GateCode(gate, l)[k], GateLabels(gate, p);
      IsJump(c) ==> !IsJa(c) && OwnOr(c.jt, l, ls, p + k) && OwnOr(c.jf, l, ls, p + k)
    ensures var ls := GateLabels(gate, p); |ls| <= 2 && forall j :: 0 <= j < |ls| ==> ls[j] <= p + |GateCode(gate, l)|
  {
    match gate
    case GTransport(_, t) => match t { case Anything => case Exactly(_) => case TcpOrUdp => }
    case GHost4(_, _, _) =>
    case GHost6(a) =>
    case GPorts4(_) =>
    case GPorts6(_) =>
    case GField(_, _) =>
  }

  predicate OwnOr(x: int, l: nat, ls: seq<int>, at: nat) {
    x == NEXT || x == REJECT || (l <= x < l + |ls| && at < ls[x - l] <= at + 16)
  }

  lemma {:induction false} GatesJump(g: Asm, b: Asm, gs: seq<Gate>)
    requires |b.pos| >= FIXED_LABELS && Within(AddGates(b, gs), g)
    requires |AddGates(b, gs).out| < |g.out| <= MAX_CODE && g.pos[REJECT] == |g.out| - 1
    ensures JumpsOkIn(g, |b.out|, |AddGates(b, gs).out|)
    decreases |gs|
  {
    hide CodeAt, LabelsAt, GateCode, GateLabels, JumpsOk;
    if gs != [] {
      var b1 := AddGate(b, gs[0]);
      GatesJump(g, b1, gs[1..]);
      WithinTransitive(b1, AddGates(b1, gs[1..]), g);
      GateWithin(b, gs[0], g);
      GateJumps(g, gs[0], |b.out|, |b.pos|);
    }
  }

  lemma BranchJumps(g: Asm, b: Asm, l: nat, gs: seq<Gate>)
    requires l < FIXED_LABELS <= |b.pos| && Within(AddBranch(b, l, gs), g)
    requires |AddBranch(b, l, gs).out| <= |g.out| - 2 && |g.out| <= MAX_CODE
    requires g.pos[ACCEPT] == |g.out| - 2 && g.pos[REJECT] == |g.out| - 1
    ensures JumpsOkIn(g, |b.out|, |AddBranch(b, l, gs).out|)
  {
    hide AddGates;
    var b1 := PlaceLabel(b, l);
    var b2 := AddGates(b1, gs);
    var b3 := AddBranch(b, l, gs);
    WithinTransitive(b2, b3, g);
    GatesJump(g, b1, gs);
    assert g.out[|b2.out|] == b3.out[|b2.out|] == JmpA(ACCEPT);
  }

  ghost function CodeLen(gs: seq<Gate>): nat {
    if gs == [] then 0 else |GateCode(gs[0], 0)| + CodeLen(gs[1..])
  }

  ghost function LabelCount(gs: seq<Gate>): nat {
    if gs == [] then 0 else |GateLabels(gs[0], 0)| + LabelCount(gs[1..])
  }

  lemma {:induction false} GatesSize(b: Asm, gs: seq<Gate>)
    ensures |AddGates(b, gs).out| == |b.out| + CodeLen(gs) && |AddGates(b, gs).pos| == |b.pos| + LabelCount(gs)
    decreases |gs|
  {
    if gs != [] {
      SameSize(gs[0], |b.pos|, |b.out|);
      GatesSize(AddGate(b, gs[0]), gs[1..]);
    }
  }

  lemma SameSize(gate: Gate, l: nat, p: nat)
    ensures |GateCode(gate, l)| == |GateCode(gate, 0)| <= 16
    ensures |GateLabels(gate, p)| == |GateLabels(gate, 0)| <= 2
  {
  }

  lemma GateCounts(f: FilterSpec)
    requires PortOk(f)
    ensures CodeLen(GatesV4(f)) <= 14 && LabelCount(GatesV4(f)) <= 3
    ensures CodeLen(GatesV6(f)) <= 23 && LabelCount(GatesV6(f)) <= 4
    ensures CodeLen(GatesArp(f)) <= 6 && LabelCount(GatesArp(f)) <= 1
  {
    CountThree(GatesV4(f));
    CountThree(GatesV6(f));
    CountThree(GatesArp(f));
  }

  lemma CountThree(gs: seq<Gate>)
    requires |gs| <= 3
    ensures CodeLen(gs) == (if |gs| > 0 then |GateCode(gs[0], 0)| else 0)
              + (if |gs| > 1 then |GateCode(gs[1], 0)| else 0) + (if |gs| > 2 then |GateCode(gs[2], 0)| else 0)
    ensures LabelCount(gs) == (if |gs| > 0 then |GateLabels(gs[0], 0)| else 0)
              + (if |gs| > 1 then |GateLabels(gs[1], 0)| else 0) + (if |gs| > 2 then |GateLabels(gs[2], 0)| else 0)
  {
    hide GateCode, GateLabels;
    if |gs| > 1 {
      assert gs[1..][1..] == gs[2..];
      assert CodeLen(gs[1..]) == |GateCode(gs[1], 0)| + CodeLen(gs[2..]);
      assert LabelCount(gs[1..]) == |GateLabels(gs[1], 0)| + LabelCount(gs[2..]);
    }
    if |gs| > 2 {
      assert gs[2..][1..] == [];
      assert CodeLen(gs[2..]) == |GateCode(gs[2], 0)| + CodeLen([]);
      assert LabelCount(gs[2..]) == |GateLabels(gs[2], 0)| + LabelCount([]);
    }
  }

  /** The longest program is well inside the builder's tables. */
  lemma AssembleFits(f: FilterSpec)
    requires Compilable(f)
    ensures |Assemble(f).out| <= 52 && |Assemble(f).pos| <= 13
    ensures |Stage1(f).pos| <= 8 && |Stage2(f).pos| <= 12
  {
    GateCounts(f);
    hide AddGates;
    GatesSize(PlaceLabel(Stage0(f), L_V4), GatesV4(f));
    GatesSize(PlaceLabel(Stage1(f), L_V6), GatesV6(f));
    GatesSize(PlaceLabel(Stage2(f), L_ARP), GatesArp(f));
  }

  lemma DispatchJumps(g: Asm, f: FilterSpec)
    requires Dispatch(f) <= g.out && 6 <= |g.out| <= MAX_CODE && |g.pos| >= FIXED_LABELS && g.pos[REJECT] == |g.out| - 1
    requires UseV4(f) ==> 4 <= g.pos[L_V4] < |g.out|
    requires UseV6(f) ==> 4 <= g.pos[L_V6] < |g.out|
    requires UseArp(f) ==> 4 <= g.pos[L_ARP] < |g.out|
    ensures JumpsOkIn(g, 0, 4)
  {
    var d := Dispatch(f);
    assert g.out[0] == d[0] && g.out[1] == d[1] && g.out[2] == d[2] && g.out[3] == d[3];
  }

  /** Every jump of an assembled program goes forward, to a placed label, within reach. */
  lemma AssembleJumps(f: FilterSpec)
    requires Compilable(f)
    ensures var g := Assemble(f); JumpsOkIn(g, 0, |g.out|)
  {
    var g := Assemble(f);
    AssembleShape(f);
    AssembleFits(f);
    assert |Stage0(f).out| == 4 && Dispatch(f) == Stage0(f).out;
    hide AddGates, Assemble, GatesV4, GatesV6, GatesArp, Dispatch, JumpsOk;
    DispatchJumps(g, f);
    if UseV4(f) { BranchJumps(g, Stage0(f), L_V4, GatesV4(f)); }
    if UseV6(f) { BranchJumps(g, Stage1(f), L_V6, GatesV6(f)); }
    if UseArp(f) { BranchJumps(g, Stage2(f), L_ARP, GatesArp(f)); }
  }

  // ---------------------------------------------------------------- the validator accepts it

  predicate KnownCode(c: Code) {
    c.code in {0x20, 0x28, 0x30, 0x48, 0xb1, 0x15, 0x45, 0x05, 0x06}
  }

  ghost predicate AllKnown(s: seq<Code>) { forall c :: c in s ==> KnownCode(c) }

  lemma {:induction false} GatesKnown(b: Asm, gs: seq<Gate>)
    requires AllKnown(b.out)
    ensures AllKnown(AddGates(b, gs).out)
    decreases |gs|
  {
    if gs != [] {
      assert AllKnown(GateCode(gs[0], |b.pos|));
      GatesKnown(AddGate(b, gs[0]), gs[1..]);
    }
  }

  lemma AssembleKnown(f: FilterSpec)
    requires Compilable(f)
    ensures AllKnown(Assemble(f).out)
  {
    hide AddGates, GatesV4, GatesV6, GatesArp;
    GatesKnown(PlaceLabel(Stage0(f), L_V4), GatesV4(f));
    GatesKnown(PlaceLabel(Stage1(f), L_V6), GatesV6(f));
    GatesKnown(PlaceLabel(Stage2(f), L_ARP), GatesArp(f));
  }

  lemma KnownIsOk(g: Asm, prog: seq<Insn>, i: nat)
    requires Resolved(g, prog) && i < |prog| && KnownCode(g.out[i]) && (IsJump(g.out[i]) ==> i + 1 < |prog|)
    ensures InsnOk(prog[i], |prog| - (i + 1))
  {
    assert JumpsOk(g, i) && Encodes(g, i, prog[i]);
  }

  /** A resolved program always passes the library's load-time check. */
  lemma AssembledIsValid(f: FilterSpec, prog: seq<Insn>)
    requires Compilable(f) && Resolved(Assemble(f), prog)
    ensures ValidProgram(prog)
  {
    var g := Assemble(f);
    AssembleShape(f);
    AssembleKnown(f);
    hide Assemble;
    forall i | 0 <= i < |prog| ensures InsnOk(prog[i], |prog| - (i + 1)) {
      assert g.out[i] in g.out;
      KnownIsOk(g, prog, i);
    }
    SameCode(g, prog, |prog| - 1);
  }

  // ---------------------------------------------------------------- the builder and the compiler

  /** The outcome of tool_bpf_compile. */
  datatype Result = Ok(prog: seq<Insn>) | ErrSnap | ErrPort | ErrImpossible | ErrSpace

  /** The gate was added: with labels enough exactly its code, and in any case as much of it. */
  ghost predicate Grown(b: Asm, c: Asm, g: Gate) {
    var r := AddGate(b, g);
    |c.out| == |r.out| && |c.pos| == |r.pos| && (|r.pos| <= MAX_LABELS ==> c == r)
  }

  /**
    ToolBpfBuild.  `full` is what the code would be with no limit; until something is dropped
    the tables hold exactly that.
   */
  class Builder {
    const max: nat
    var out: seq<Code>
    var pos: seq<int>
    var overflow: bool
    ghost var full: Asm

    ghost function Limit(): nat { if max < MAX_CODE then max else MAX_CODE }

    ghost predicate Valid()
      reads this
    {
      && |pos| == (if |full.pos| < MAX_LABELS then |full.pos| else MAX_LABELS)
      && |out| == (if |full.out| < Limit() then |full.out| else Limit())
      && (overflow <==> |full.out| > Limit() || |full.pos| > MAX_LABELS)
      && (!overflow ==> out == full.out && pos == full.pos)
    }

    constructor (max: nat)
      ensures Valid() && full == Asm([], []) && this.max == max
    {
      this.max := max;
      out, pos, overflow, full := [], [], false, Asm([], []);
    }

    /** tool_bpf_label: the next label, or with none left the first one and the overflow flag. */
    method NewLabel() returns (l: nat)
      requires Valid()
      modifies this
      ensures Valid() && full == Asm(old(full.out), old(full.pos) + [UNPLACED])
      ensures l == if |old(full.pos)| < MAX_LABELS then |old(full.pos)| else 0
    {
      full := Asm(full.out, full.pos + [UNPLACED]);
      if |pos| >= MAX_LABELS {
        overflow := true;
        return 0;
      }
      l := |pos|;
      pos := pos + [UNPLACED];
    }

    /** tool_bpf_place: the label stands at the next instruction; a label there is none of is ignored. */
    method Place(l: int)
      requires Valid()
      modifies this
      ensures Valid() && full == if 0 <= l < |old(pos)| then PlaceLabel(old(full), l) else old(full)
    {
      if 0 <= l < |pos| {
        pos := pos[l := |out|];
        full := PlaceLabel(full, l);
      }
    }

    method Emit(c: Code)
      requires Valid()
      modifies this
      ensures Valid() && full == Put(old(full), c)
    {
      full := Put(full, c);
      if |out| >= max || |out| >= MAX_CODE {
        overflow := true;
      } else {
        out := out + [c];
      }
    }

    /** tool_bpf_gate_proto */
    method GateProto(off: u32, t: Transport)
      requires Valid()
      modifies this
      ensures Valid() && Grown(old(full), full, GTransport(off, t))
    {
      if t.Anything? {
        return;
      }
      Emit(LdB(off));
      if t.TcpOrUdp? {
        var ok := NewLabel();
        Emit(JmpEq(IPPROTO_TCP, ok, NEXT));
        Emit(JmpEq(IPPROTO_UDP, NEXT, REJECT));
        Place(ok);
        assert full.out == old(full.out) + GateCode(GTransport(off, t), ok);
      } else {
        Emit(JmpEq(t.n, NEXT, REJECT));
        assert full.out == old(full.out) + GateCode(GTransport(off, t), 0);
      }
    }

    /** tool_bpf_gate_host4 */
    method GateHost4(h: u32, src: u32, dst: u32)
      requires Valid()
      modifies this
      ensures Valid() && Grown(old(full), full, GHost4(src, dst, h))
    {
      var ok := NewLabel();
      Emit(LdW(src));
      Emit(JmpEq(h, ok, NEXT));
      Emit(LdW(dst));
      Emit(JmpEq(h, NEXT, REJECT));
      Place(ok);
      assert full.out == old(full.out) + GateCode(GHost4(src, dst, h), ok);
    }

    /** The four compares of one address: `last` when all agree, `other` at the first difference. */
    method EmitAddr6(off: u16, a: Addr6, last: int, other: int)
      requires Valid() && off < 100
      modifies this
      ensures Valid() && full == Asm(old(full.out) + Addr6Code(off, a, last, other), old(full.pos))
    {
      ghost var c := Addr6Code(off, a, last, other);
      for i := 0 to 4
        invariant Valid() && full.pos == old(full.pos) && full.out == old(full.out) + c[..2 * i]
      {
        Emit(LdW(off + i * 4));
        Emit(JmpEq(Word6(a, i), if i == 3 then last else NEXT, other));
        assert c[..2 * (i + 1)] == c[..2 * i] + [c[2 * i], c[2 * i + 1]];
      }
      assert c[..8] == c;
    }

    /** tool_bpf_gate_host6 */
    method GateHost6(a: Addr6)
      requires Valid()
      modifies this
      ensures Valid() && Grown(old(full), full, GHost6(a))
    {
      var dst := NewLabel();
      var ok := NewLabel();
      EmitAddr6(IP6_SRC, a, ok, dst);
      Place(dst);
      EmitAddr6(IP6_DST, a, NEXT, REJECT);
      Place(ok);
      assert |old(full.pos)| + 1 < MAX_LABELS ==> full.out == old(full.out) + GateCode(GHost6(a), dst);
    }

    /** tool_bpf_gate_port4 */
    method GatePort4(port: u32)
      requires Valid()
      modifies this
      ensures Valid() && Grown(old(full), full, GPorts4(port))
    {
      var ok := NewLabel();
      Emit(LdH(IP4_FLAGS));
      Emit(JmpSet(0x1fff, REJECT, NEXT));
      Emit(LdxMsh(ETH_LEN));
      Emit(LdHInd(ETH_LEN));
      Emit(JmpEq(port, ok, NEXT));
      Emit(LdHInd(ETH_LEN + 2));
      Emit(JmpEq(port, NEXT, REJECT));
      Place(ok);
      assert full.out == old(full.out) + GateCode(GPorts4(port), ok);
    }

    /** tool_bpf_gate_port6 */
    method GatePort6(port: u32)
      requires Valid()
      modifies this
      ensures Valid() && Grown(old(full), full, GPorts6(port))
    {
      var ok := NewLabel();
      Emit(LdH(IP6_PORTS));
      Emit(JmpEq(port, ok, NEXT));
      Emit(LdH(IP6_PORTS + 2));
      Emit(JmpEq(port, NEXT, REJECT));
      Place(ok);
      assert full.out == old(full.out) + GateCode(GPorts6(port), ok);
    }

    method FiveLabels() returns (accept: nat, reject: nat, v4: nat, v6: nat, arp: nat)
      requires Valid() && full == Asm([], [])
      modifies this
      ensures Valid() && full == Asm([], [UNPLACED, UNPLACED, UNPLACED, UNPLACED, UNPLACED])
      ensures accept == ACCEPT && reject == REJECT && v4 == L_V4 && v6 == L_V6 && arp == L_ARP
    {
      accept := NewLabel();
      reject := NewLabel();
      v4 := NewLabel();
      v6 := NewLabel();
      arp := NewLabel();
    }

    /** The Ethernet type test and the five fixed labels. */
    method Begin(f: FilterSpec)
      requires Valid() && full == Asm([], [])
      modifies this
      ensures Valid() && full == Stage0(f)
    {
      var accept, reject, v4, v6, arp := FiveLabels();
      Emit(LdH(ETH_TYPE));
      Emit(JmpEq(ETHERTYPE_IP, if UseV4(f) then v4 else reject, NEXT));
      Emit(JmpEq(ETHERTYPE_IP6, if UseV6(f) then v6 else reject, NEXT));
      Emit(JmpEq(ETHERTYPE_ARP, if UseArp(f) then arp else reject, reject));
      assert full.out == Dispatch(f);
    }

    method BranchV4(f: FilterSpec)
      requires Valid() && UseV4(f) && PortOk(f) && FIXED_LABELS <= |pos| <= 5
      modifies this
      ensures Valid() && full == AddBranch(old(full), L_V4, GatesV4(f))
    {
      Place(L_V4);
      ghost var b := full;
      assert |b.pos| <= 8;
      hide Builder.Valid, Grown, AddGate, TransportOf;
      GateProto(IP4_PROTO, TransportOf(f, IPPROTO_ICMP));
      ghost var b1 := full;
      GrownIs(b, b1, GTransport(IP4_PROTO, TransportOf(f, IPPROTO_ICMP)));
      if f.host.Host4? {
        GateHost4(f.host.v4, IP4_SRC, IP4_DST);
        GrownIs(b1, full, GHost4(IP4_SRC, IP4_DST, f.host.v4));
      }
      ghost var b2 := full;
      if f.port.Some? {
        GatePort4(f.port.value);
        GrownIs(b2, full, GPorts4(f.port.value));
      }
      RowOfGates(b, GatesV4(f));
      Emit(JmpA(ACCEPT));
    }

    method BranchV6(f: FilterSpec)
      requires Valid() && UseV6(f) && PortOk(f) && FIXED_LABELS <= |pos| <= 8
      modifies this
      ensures Valid() && full == AddBranch(old(full), L_V6, GatesV6(f))
    {
      Place(L_V6);
      ghost var b := full;
      assert |b.pos| <= 8;
      hide Builder.Valid, Grown, AddGate, TransportOf;
      GateProto(IP6_NEXT, TransportOf(f, IPPROTO_ICMPV6));
      ghost var b1 := full;
      GrownIs(b, b1, GTransport(IP6_NEXT, TransportOf(f, IPPROTO_ICMPV6)));
      if f.host.Host6? {
        GateHost6(f.host.v6);
        GrownIs(b1, full, GHost6(f.host.v6));
      }
      ghost var b2 := full;
      if f.port.Some? {
        GatePort6(f.port.value);
        GrownIs(b2, full, GPorts6(f.port.value));
      }
      RowOfGates(b, GatesV6(f));
      Emit(JmpA(ACCEPT));
    }

    method BranchArp(f: FilterSpec)
      requires Valid() && UseArp(f) && FIXED_LABELS <= |pos| <= 12
      modifies this
      ensures Valid() && full == AddBranch(old(full), L_ARP, GatesArp(f))
    {
      Place(L_ARP);
      ghost var b := full;
      if f.host.Host4? {
        Emit(LdH(ARP_PTYPE));
        Emit(JmpEq(ETHERTYPE_IP, NEXT, REJECT));
        assert full == AddGate(b, GField(ARP_PTYPE, ETHERTYPE_IP));
        GateHost4(f.host.v4, ARP_SPA, ARP_TPA);
      }
      RowOfGates(b, GatesArp(f));
      Emit(JmpA(ACCEPT));
    }

    method Finish(f: FilterSpec)
      requires Valid() && Compilable(f) && full == Branches(f)
      modifies this
      ensures Valid() && full == Assemble(f)
    {
      Place(ACCEPT);
      Emit(RetK(if f.invert then 0 else f.snaplen));
      Place(REJECT);
      Emit(RetK(if f.invert then f.snaplen else 0));
    }
  }

  /** With labels enough a gate adds exactly its code, and at most two labels. */
  lemma GrownIs(b: Asm, c: Asm, g: Gate)
    requires Grown(b, c, g) && |b.pos| + 2 <= MAX_LABELS
    ensures c == AddGate(b, g) && |c.pos| <= |b.pos| + 2
  {
    hide GateCode;
  }

  /** Up to three gates added one after another. */
  lemma RowOfGates(b: Asm, gs: seq<Gate>)
    requires |gs| <= 3
    ensures |gs| == 0 ==> AddGates(b, gs) == b
    ensures |gs| == 1 ==> AddGates(b, gs) == AddGate(b, gs[0])
    ensures |gs| == 2 ==> AddGates(b, gs) == AddGate(AddGate(b, gs[0]), gs[1])
    ensures |gs| == 3 ==> AddGates(b, gs) == AddGate(AddGate(AddGate(b, gs[0]), gs[1]), gs[2])
    decreases |gs|
  {
    hide AddGate;
    if |gs| > 1 {
      RowOfGates(AddGate(b, gs[0]), gs[1..]);
    }
  }

  /** No frame family is left: the combination contradicts itself. */
  predicate Contradictory(f: FilterSpec) {
    || (f.port.Some? && (f.proto == Icmp || f.proto == Arp))
    || (!UseV4(f) && !UseV6(f) && !UseArp(f))
  }

  /** Refused as impossible: NOT of nothing, or a contradiction, inverted or not. */
  predicate Impossible(f: FilterSpec) { if Trivial(f) then f.invert else Contradictory(f) }

  /**
    tool_bpf_compile.  An accepted filter gives a program the library's validator passes and
    the library's interpreter runs to the filter's own decision on every packet.
   */
  method Compile(f: FilterSpec, max: nat) returns (r: Result)
    ensures max == 0 ==> r == ErrSpace
    ensures max > 0 ==>
      (r == ErrSnap <==> !(1 <= f.snaplen <= 65535))
      && (r == ErrPort <==> 1 <= f.snaplen <= 65535 && f.port.Some? && f.port.value > 65535)
      && (r == ErrImpossible <==> Compilable(f) && Impossible(f))
      && (r == ErrSpace <==> Compilable(f) && !Trivial(f) && !Contradictory(f) && |Assemble(f).out| > max)
    ensures r.Ok? ==> Compilable(f) && |r.prog| <= max && ValidProgram(r.prog)
    ensures r.Ok? ==> forall pkt :: Filter(r.prog, pkt) == Decide(f, pkt.bytes)
  {
    if max == 0 { return ErrSpace; }
    if f.snaplen == 0 || f.snaplen > 65535 { return ErrSnap; }
    if f.port.Some? && f.port.value > 65535 { return ErrPort; }
    if f.port.Some? && (f.proto == Icmp || f.proto == Arp) { return ErrImpossible; }
    if f.proto == AnyProto && f.host.NoHost? && f.port.None? {
      if f.invert { return ErrImpossible; }
      var prog := [Insn(0x06, 0, 0, f.snaplen)];
      OneReturn(f.snaplen);
      return Ok(prog);
    }
    if !UseV4(f) && !UseV6(f) && !UseArp(f) { return ErrImpossible; }
    hide Assemble, ValidProgram, Filter, Decide;
    var b := AssembleInto(f, max);
    if b.None? { return ErrSpace; }
    r := Ok(b.value);
  }

  /** The builder's run for a filter with something to test. */
  method AssembleInto(f: FilterSpec, max: nat) returns (r: Option<seq<Insn>>)
    requires Compilable(f) && !Trivial(f)
    ensures r.None? <==> |Assemble(f).out| > max
    ensures r.Some? ==> |r.value| <= max && ValidProgram(r.value)
    ensures r.Some? ==> forall pkt :: Filter(r.value, pkt) == Decide(f, pkt.bytes)
  {
    hide ValidProgram, Filter, Decide, AddBranch, GatesV4, GatesV6, GatesArp;
    var b := new Builder(max);
    AssembleFits(f);
    b.Begin(f);
    if UseV4(f) { b.BranchV4(f); }
    if UseV6(f) { b.BranchV6(f); }
    if UseArp(f) { b.BranchArp(f); }
    b.Finish(f);
    if b.overflow { return None; }
    LabelsInside(f);
    FixupSucceeds(f);
    r := Fixup(Asm(b.out, b.pos));
    FixedIsRight(f, r.value);
  }

  lemma FixedIsRight(f: FilterSpec, prog: seq<Insn>)
    requires Compilable(f) && !Trivial(f) && |prog| == |Assemble(f).out|
    requires forall i :: 0 <= i < |prog| ==> Encodes(Assemble(f), i, prog[i])
    ensures ValidProgram(prog)
    ensures forall pkt :: Filter(prog, pkt) == Decide(f, pkt.bytes)
  {
    AssembleJumps(f);
    AssembleFits(f);
    hide Assemble, Encodes, Decide;
    assert Resolved(Assemble(f), prog);
    AssembledIsValid(f, prog);
    forall pkt ensures Filter(prog, pkt) == Decide(f, pkt.bytes) {
      AssembledDecides(f, prog, pkt);
    }
  }

  lemma OneReturn(n: u32)
    ensures ValidProgram([Insn(0x06, 0, 0, n)])
    ensures forall pkt :: Filter([Insn(0x06, 0, 0, n)], pkt) == n
  {
  }

  ghost predicate LabelsBelow(b: Asm) {
    forall l :: 0 <= l < |b.pos| ==> b.pos[l] <= |b.out|
  }

  lemma LabelsInside(f: FilterSpec)
    requires Compilable(f)
    ensures LabelsBelow(Assemble(f))
  {
    hide AddGates, GatesV4, GatesV6, GatesArp;
    LabelsOfGates(PlaceLabel(Stage0(f), L_V4), GatesV4(f));
    assert LabelsBelow(Stage1(f));
    LabelsOfGates(PlaceLabel(Stage1(f), L_V6), GatesV6(f));
    assert LabelsBelow(Stage2(f));
    LabelsOfGates(PlaceLabel(Stage2(f), L_ARP), GatesArp(f));
    assert LabelsBelow(Branches(f));
  }

  lemma {:induction false} LabelsOfGates(b: Asm, gs: seq<Gate>)
    requires LabelsBelow(b)
    ensures LabelsBelow(AddGates(b, gs))
    decreases |gs|
  {
    if gs != [] {
      var l, p := |b.pos|, |b.out|;
      assert forall i :: 0 <= i < |GateLabels(gs[0], p)| ==> GateLabels(gs[0], p)[i] <= p + |GateCode(gs[0], l)|;
      LabelsOfGates(AddGate(b, gs[0]), gs[1..]);
    }
  }

  lemma FixupSucceeds(f: FilterSpec)
    requires Compilable(f)
    ensures var g := Assemble(f); forall i :: 0 <= i < |g.out| ==> FixOk(g, i)
  {
    var g := Assemble(f);
    AssembleJumps(f);
    hide Assemble;
    forall i | 0 <= i < |g.out| ensures FixOk(g, i) {
      assert JumpsOk(g, i);
    }
  }
}
