/**
  The frame repair of tools/fix-toolchain-crt0.py: making ____start push the registers exit pops,
  by patching movem masks in an object file.
 */
module Crt0 {
  import opened Words

  const MOVEM_SAVE: u16 := 0x48E7
  const MOVEM_REST: u16 := 0x4CDF

  // ---------------------------------------------------------------- masks

  /** A bit put at position n. */
  function High(a: nat, n: nat): (h: nat) { if a == 0 then 0 else Pow2(n) }

  /** The lowest n bits, read from the other end. */
  function Rev(m: nat, n: nat): (r: nat)
    decreases n
  {
    if n == 0 then 0 else High(m % 2, n - 1) + Rev(m / 2, n - 1)
  }

  function Pop(m: nat): (c: nat) { if m == 0 then 0 else m % 2 + Pop(m / 2) }

  lemma {:induction false} RevBound(m: nat, n: nat)
    ensures Rev(m, n) < Pow2(n)
    decreases n
  {
    if n > 0 { RevBound(m / 2, n - 1); }
  }

  function Rev16(m: u16): (r: u16) {
    Pow2Is32(); RevBound(m, 16);
    Rev(m, 16)
  }

  /** A number with one more bit on top, halved. */
  lemma TopHalf(a: nat, r: nat, n: nat)
    requires a <= 1 && n >= 2 && r < Pow2(n - 1)
    ensures (High(a, n - 1) + r) / 2 == High(a, n - 2) + r / 2 && (High(a, n - 1) + r) % 2 == r % 2
    ensures r / 2 < Pow2(n - 2)
  {
  }

  lemma {:induction false} RevTop(a: nat, r: nat, n: nat)
    requires a <= 1 && n >= 1 && r < Pow2(n - 1)
    ensures Rev(High(a, n - 1) + r, n) == 2 * Rev(r, n - 1) + a
    decreases n
  {
    if n == 1 {
      assert Rev(a, 1) == a;
    } else {
      TopHalf(a, r, n);
      RevTop(a, r / 2, n - 1);
    }
  }

  /** Reading the bits backwards twice gives them back. */
  lemma {:induction false} RevTwice(m: nat, n: nat)
    requires m < Pow2(n)
    ensures Rev(Rev(m, n), n) == m
    decreases n
  {
    if n > 0 {
      RevTwice(m / 2, n - 1);
      RevBound(m / 2, n - 1);
      RevTop(m % 2, Rev(m / 2, n - 1), n);
    }
  }

  lemma {:induction false} BitTop(a: nat, r: nat, n: nat, k: nat)
    requires a <= 1 && n >= 1 && r < Pow2(n - 1) && k < n
    ensures Bit(High(a, n - 1) + r, k) == if k == n - 1 then a else Bit(r, k)
    decreases n
  {
    if n >= 2 {
      TopHalf(a, r, n);
      if k > 0 { BitTop(a, r / 2, n - 1, k - 1); }
    }
  }

  lemma {:induction false} RevBit(m: nat, n: nat, k: nat)
    requires k < n
    ensures Bit(Rev(m, n), k) == Bit(m, n - 1 - k)
    decreases n
  {
    RevBound(m / 2, n - 1);
    BitTop(m % 2, Rev(m / 2, n - 1), n, k);
    if k < n - 1 { RevBit(m / 2, n - 1, k); }
  }

  lemma {:induction false} PopTop(a: nat, r: nat, n: nat)
    requires a <= 1 && n >= 1 && r < Pow2(n - 1)
    ensures Pop(High(a, n - 1) + r) == a + Pop(r)
    decreases n
  {
    if n >= 2 {
      TopHalf(a, r, n);
      PopTop(a, r / 2, n - 1);
      PopHalf(r);
      PopHalf(High(a, n - 1) + r);
    }
  }

  lemma PopHalf(m: nat)
    ensures Pop(m) == m % 2 + Pop(m / 2)
  {
  }

  lemma {:induction false} PopRev(m: nat, n: nat)
    requires m < Pow2(n)
    ensures Pop(Rev(m, n)) == Pop(m)
    decreases n
  {
    if n > 0 {
      PopRev(m / 2, n - 1);
      RevBound(m / 2, n - 1);
      PopTop(m % 2, Rev(m / 2, n - 1), n);
      PopHalf(m);
    }
  }

  /**
    movem.l <regs>,-(sp) counts a7..a0,d7..d0 from bit 0, movem.l (sp)+,<regs> counts d0..d7,a0..a7;
    registers are d0..d7,a0..a7.
   */
  predicate Saves(mask: u16, register: nat)
    requires register < 16
  {
    Bit(mask, 15 - register) == 1
  }

  predicate Restores(mask: u16, register: nat)
    requires register < 16
  {
    Bit(mask, register) == 1
  }

  /** rev16: an involution, and the restore mask of exactly the registers a save mask names, as many of them. */
  lemma Rev16Means(m: u16)
    ensures Rev16(Rev16(m)) == m
    ensures Pop(Rev16(m)) == Pop(m)
    ensures forall r: nat :: r < 16 ==> (Restores(Rev16(m), r) <==> Saves(m, r))
  {
    hide Rev, Bit, Pop, Pow2;
    Pow2Is32();
    RevTwice(m, 16);
    PopRev(m, 16);
    forall r: nat | r < 16 ensures Restores(Rev16(m), r) <==> Saves(m, r) {
      RevBit(m, 16, r);
    }
  }

  // ---------------------------------------------------------------- the repair

  /** A movem objdump reported: section offset, opcode word, mask word. */
  datatype Insn = Insn(off: nat, op: u16, mask: u16)

  datatype Outcome = Refused | Skipped | Immune | Ok | Buggy | Patched | Raised

  function SavesOf(insns: seq<Insn>): (s: seq<Insn>) {
    if insns == [] then [] else (if insns[0].op == MOVEM_SAVE then [insns[0]] else []) + SavesOf(insns[1..])
  }

  /** The mask a movem of ____start must have to describe the same registers as exit's save. */
  function Want(op: u16, save: u16): (m: u16) { if op == MOVEM_SAVE then save else Rev16(save) }

  predicate IsWrong(e: Insn, save: u16) { (e.op == MOVEM_SAVE || e.op == MOVEM_REST) && e.mask != Want(e.op, save) }

  function WrongOf(insns: seq<Insn>, save: u16): (w: seq<Insn>) {
    if insns == [] then [] else (if IsWrong(insns[0], save) then [insns[0]] else []) + WrongOf(insns[1..], save)
  }

  lemma {:induction false} WrongMeans(insns: seq<Insn>, save: u16, e: Insn)
    ensures e in WrongOf(insns, save) <==> e in insns && IsWrong(e, save)
  {
    if insns != [] {
      hide IsWrong;
      WrongMeans(insns[1..], save, e);
      assert insns == [insns[0]] + insns[1..];
    }
  }

  function Word16(b: seq<u8>, i: nat): (w: u16)
    requires i + 2 <= |b|
  {
    b[i] as int * 256 + b[i + 1]
  }

  /** The four bytes at `at` are this instruction. */
  predicate Holds(b: seq<u8>, at: nat, op: u16, mask: u16) {
    at + 4 <= |b| && Word16(b, at) == op && Word16(b, at + 2) == mask
  }

  function Patch(b: seq<u8>, at: nat, mask: u16): (r: seq<u8>)
    requires at + 4 <= |b|
    ensures |r| == |b|
  {
    b[at + 2 := mask / 256][at + 3 := mask % 256]
  }

  /** How a mismatch ends: the words are compared in order, and reading past the end raises. */
  function Mismatch(b: seq<u8>, at: nat, op: u16): (r: Outcome)
    ensures r == Refused || r == Raised
  {
    if at + 2 > |b| then Raised else if Word16(b, at) != op then Refused else if at + 4 > |b| then Raised else Refused
  }

  /** An instruction that is not there: reading past the end raises, if the opcode word did not differ before that. */
  lemma MismatchMeans(b: seq<u8>, at: nat, op: u16, mask: u16)
    requires !Holds(b, at, op, mask)
    ensures Mismatch(b, at, op) == Raised <==>
            |b| < at + 2 || (|b| < at + 4 && b[at] as int * 256 + b[at + 1] == op)
  {
  }

  datatype Patching = Patching(outcome: Outcome, bytes: seq<u8>)

  /** A run over some instructions, up to the first that is not there to be patched. */
  function PatchAll(b: seq<u8>, base: nat, wrong: seq<Insn>, save: u16): (r: Patching) {
    if wrong == [] then Patching(Patched, b)
    else
      var before := PatchAll(b, base, wrong[..|wrong| - 1], save);
      var e := wrong[|wrong| - 1];
      if before.outcome != Patched then before
      else if !Holds(before.bytes, base + e.off, e.op, e.mask) then
        before.(outcome := Mismatch(before.bytes, base + e.off, e.op))
      else Patching(Patched, Patch(before.bytes, base + e.off, Want(e.op, save)))
  }

  /** The whole decision, and the file after it: untouched unless every patch could be made. */
  function Verdict(start: Option<seq<Insn>>, leave: Option<seq<Insn>>, checkOnly: bool, base: Option<nat>,
                   b: seq<u8>): (r: Patching) {
    if start.None? || leave.None? then Patching(Skipped, b)
    else
      var saves := SavesOf(leave.value);
      if saves == [] then Patching(if start.value == [] then Immune else Refused, b)
      else if |saves| != 1 then Patching(Refused, b)
      else
        var save := saves[0].mask;
        var wrong := WrongOf(start.value, save);
        if wrong == [] then Patching(Ok, b)
        else if checkOnly then Patching(Buggy, b)
        else if base.None? then Patching(Refused, b)
        else
          var p := PatchAll(b, base.value, wrong, save);
          if p.outcome == Patched then p else p.(bytes := b)
  }

  /** The movem names exactly the registers that a save with this mask pushes. */
  ghost predicate SameRegisters(e: Insn, save: u16) {
    && (e.op == 0x48E7 ==> forall r: nat :: r < 16 ==> (Saves(e.mask, r) <==> Saves(save, r)))
    && (e.op == 0x4CDF ==> forall r: nat :: r < 16 ==> (Restores(e.mask, r) <==> Saves(save, r)))
  }

  /** The one movem in exit that saves. */
  ghost predicate OnlySave(leave: seq<Insn>, i: nat) {
    i < |leave| && leave[i].op == 0x48E7 && forall j :: 0 <= j < |leave| && j != i ==> leave[j].op != 0x48E7
  }

  lemma {:induction false} SavesOfNone(insns: seq<Insn>)
    ensures SavesOf(insns) == [] <==> forall i :: 0 <= i < |insns| ==> insns[i].op != 0x48E7
  {
    if insns != [] {
      SavesOfNone(insns[1..]);
      assert forall i :: 1 <= i < |insns| ==> insns[i] == insns[1..][i - 1];
      assert forall i :: 0 <= i < |insns| - 1 ==> insns[i + 1] == insns[1..][i];
    }
  }

  lemma {:induction false} SavesOfOne(insns: seq<Insn>, i: nat)
    ensures OnlySave(insns, i) ==> SavesOf(insns) == [insns[i]]
    decreases |insns|
  {
    if OnlySave(insns, i) {
      var rest := insns[1..];
      assert forall j :: 0 <= j < |rest| ==> rest[j] == insns[j + 1];
      if i == 0 {
        SavesOfNone(rest);
      } else {
        assert OnlySave(rest, i - 1);
        SavesOfOne(rest, i - 1);
      }
    }
  }

  lemma {:induction false} OneSave(insns: seq<Insn>) returns (i: nat)
    requires |SavesOf(insns)| == 1
    ensures OnlySave(insns, i)
    decreases |insns|
  {
    var rest := insns[1..];
    assert forall j :: 0 <= j < |rest| ==> rest[j] == insns[j + 1];
    if insns[0].op == MOVEM_SAVE {
      SavesOfNone(rest);
      i := 0;
      assert forall j :: 1 <= j < |insns| ==> insns[j] == rest[j - 1];
    } else {
      i := OneSave(rest);
      i := i + 1;
      assert forall j :: 1 <= j < |insns| ==> insns[j] == rest[j - 1];
    }
  }

  /** A mask is right exactly when it names the right registers. */
  lemma WrongIff(e: Insn, save: u16)
    ensures IsWrong(e, save) <==> !SameRegisters(e, save)
  {
    Rev16Means(save);
    SameMask(e.mask, save);
    SameMask(e.mask, Rev16(save));
    hide Rev16, Bit;
    if e.op == MOVEM_SAVE && forall r: nat :: r < 16 ==> (Saves(e.mask, r) <==> Saves(save, r)) {
      forall k: nat | k < 16 ensures HasBit(e.mask, k) <==> HasBit(save, k) {
        var r: nat := 15 - k;
        assert Saves(e.mask, r) <==> Saves(save, r);
      }
    }
    if e.op == MOVEM_REST && forall r: nat :: r < 16 ==> (Restores(e.mask, r) <==> Saves(save, r)) {
      forall k: nat | k < 16 ensures HasBit(e.mask, k) <==> HasBit(Rev16(save), k) {
        assert Restores(e.mask, k) <==> Saves(save, k);
        assert Restores(Rev16(save), k) <==> Saves(save, k);
      }
    }
  }

  lemma SameMask(a: u16, b: u16)
    ensures (forall k: nat :: k < 16 ==> (HasBit(a, k) <==> HasBit(b, k))) ==> a == b
  {
    Pow2Is32();
    if forall k: nat :: k < 16 ==> (HasBit(a, k) <==> HasBit(b, k)) { BitsDetermine(a, b, 16); }
  }

  lemma {:induction false} NoneWrongIff(insns: seq<Insn>, save: u16)
    ensures WrongOf(insns, save) == [] <==> forall i :: 0 <= i < |insns| ==> SameRegisters(insns[i], save)
  {
    forall e ensures e in WrongOf(insns, save) <==> e in insns && !SameRegisters(e, save) {
      WrongMeans(insns, save, e);
      WrongIff(e, save);
    }
    hide WrongOf, SameRegisters;
    if WrongOf(insns, save) != [] {
      var e := WrongOf(insns, save)[0];
      assert e in WrongOf(insns, save);
    }
  }

  /**
    Each answer, exactly when: Skipped when a function is missing; Immune when exit saves nothing and
    ____start moves nothing; with exactly one save in exit, Ok when every movem of ____start names
    its registers, and when one does not, Buggy if only asked to check.
   */
  lemma VerdictMeans(start: Option<seq<Insn>>, leave: Option<seq<Insn>>, checkOnly: bool, base: Option<nat>, b: seq<u8>)
    ensures var v := Verdict(start, leave, checkOnly, base, b).outcome;
      && (v == Skipped <==> start.None? || leave.None?)
      && (v == Immune <==> start == Some([]) && leave.Some?
                           && forall i :: 0 <= i < |leave.value| ==> leave.value[i].op != 0x48E7)
    ensures start.Some? && leave.Some? ==>
      forall i: nat :: OnlySave(leave.value, i) ==> OutcomeFits(start.value, leave.value[i].mask, checkOnly, base, b,
                                                               Verdict(start, leave, checkOnly, base, b).outcome)
    ensures var v := Verdict(start, leave, checkOnly, base, b).outcome;
      (v == Ok || v == Buggy || v == Patched || v == Raised) ==>
        leave.Some? && exists i: nat :: OnlySave(leave.value, i)
  {
    if start.Some? && leave.Some? {
      SavesOfNone(leave.value);
      forall i: nat | OnlySave(leave.value, i)
        ensures OutcomeFits(start.value, leave.value[i].mask, checkOnly, base, b,
                            Verdict(start, leave, checkOnly, base, b).outcome)
      {
        var save := leave.value[i].mask;
        SavesOfOne(leave.value, i);
        NoneWrongIff(start.value, save);
        PatchingEnds(b, if base.Some? then base.value else 0, WrongOf(start.value, save), save);
        hide SavesOf, WrongOf, PatchAll, OnlySave, SameRegisters;
      }
      if |SavesOf(leave.value)| == 1 {
        var i := OneSave(leave.value);
      }
    }
    hide SavesOf, WrongOf, PatchAll, SameRegisters;
  }

  ghost predicate OutcomeFits(start: seq<Insn>, save: u16, checkOnly: bool, base: Option<nat>, b: seq<u8>, v: Outcome) {
    var right := forall i :: 0 <= i < |start| ==> SameRegisters(start[i], save);
    && (v == Ok <==> right)
    && (v == Buggy <==> !right && checkOnly)
    && (!right && !checkOnly ==> v == Patched || v == Refused || v == Raised)
    && (!right && !checkOnly && base.None? ==> v == Refused)
  }

  lemma {:induction false} PatchingEnds(b: seq<u8>, base: nat, wrong: seq<Insn>, save: u16)
    ensures var v := PatchAll(b, base, wrong, save).outcome; v == Patched || v == Refused || v == Raised
    decreases |wrong|
  {
    if wrong != [] { PatchingEnds(b, base, wrong[..|wrong| - 1], save); }
  }

  class ObjectFile {
    var bytes: seq<u8>

    /**
      repair(): `start` and `leave` are the movems of ____start and exit, `base` is where .text is
      in the file. Every answer but Patched leaves the file as it was; Patched means every wrong
      instruction was where objdump said.
     */
    method Repair(start: Option<seq<Insn>>, leave: Option<seq<Insn>>, checkOnly: bool, base: Option<nat>)
      returns (r: Outcome)
      modifies this
      ensures Patching(r, bytes) == Verdict(start, leave, checkOnly, base, old(bytes))
      ensures r != Patched ==> bytes == old(bytes)
    {
      if start.None? || leave.None? {
        return Skipped;
      }
      var saves := SavesOf(leave.value);
      if saves == [] {
        return if start.value == [] then Immune else Refused;
      }
      if |saves| != 1 {
        return Refused;
      }
      var save := saves[0].mask;
      var wrong := WrongOf(start.value, save);
      if wrong == [] {
        return Ok;
      }
      if checkOnly {
        return Buggy;
      }
      if base.None? {
        return Refused;
      }
      r := PatchFile(base.value, wrong, save);
    }

    /** The patching loop, on a copy of the file that is written back at the end. */
    method PatchFile(base: nat, wrong: seq<Insn>, save: u16) returns (r: Outcome)
      modifies this
      ensures var p := PatchAll(old(bytes), base, wrong, save);
        r == p.outcome && bytes == if r == Patched then p.bytes else old(bytes)
    {
      var data := Copy(bytes);
      assert PatchAll(bytes, base, [], save) == Patching(Patched, bytes) && wrong[..0] == [];
      hide Mismatch, PatchAll, Holds, Patch, Want;
      for i := 0 to |wrong|
        invariant bytes == old(bytes) && PatchAll(bytes, base, wrong[..i], save) == Patching(Patched, data[..])
      {
        PatchSnoc(bytes, base, wrong, save, i, data[..]);
        var o := PatchOne(data, base + wrong[i].off, wrong[i], save);
        if o != Patched {
          StaysStopped(bytes, base, wrong, save, i + 1);
          return o;
        }
      }
      assert wrong[..|wrong|] == wrong;
      bytes := data[..];
      r := Patched;
    }

    /** bytearray(data). */
    static method Copy(b: seq<u8>) returns (data: array<u8>)
      ensures fresh(data) && data[..] == b
    {
      data := new u8[|b|](i requires 0 <= i < |b| => b[i]);
    }

    /** One instruction: refused unless the bytes are the ones objdump saw; past the end Python raises. */
    static method PatchOne(data: array<u8>, at: nat, e: Insn, save: u16) returns (r: Outcome)
      modifies data
      ensures r == if Holds(old(data[..]), at, e.op, e.mask) then Patched else Mismatch(old(data[..]), at, e.op)
      ensures r == Patched ==> data[..] == Patch(old(data[..]), at, Want(e.op, save))
    {
      hide Want;
      if at + 2 > data.Length {
        return Raised;
      }
      if data[at] as int * 256 + data[at + 1] != e.op {
        return Refused;
      }
      if at + 4 > data.Length {
        return Raised;
      }
      if data[at + 2] as int * 256 + data[at + 3] != e.mask {
        return Refused;
      }
      var want := Want(e.op, save);
      data[at + 2] := want / 256;
      data[at + 3] := want % 256;
      assert data[..] == Patch(old(data[..]), at, want);
      r := Patched;
    }
  }

  lemma PatchSnoc(b: seq<u8>, base: nat, wrong: seq<Insn>, save: u16, i: nat, sofar: seq<u8>)
    requires i < |wrong| && PatchAll(b, base, wrong[..i], save) == Patching(Patched, sofar)
    ensures var e := wrong[i];
      PatchAll(b, base, wrong[..i + 1], save) ==
        if Holds(sofar, base + e.off, e.op, e.mask) then Patching(Patched, Patch(sofar, base + e.off, Want(e.op, save)))
        else Patching(Mismatch(sofar, base + e.off, e.op), sofar)
  {
    hide Holds, Patch, Want, Mismatch;
    assert wrong[..i + 1][..i] == wrong[..i];
  }

  lemma {:induction false} StaysStopped(b: seq<u8>, base: nat, wrong: seq<Insn>, save: u16, n: nat)
    requires n <= |wrong| && PatchAll(b, base, wrong[..n], save).outcome != Patched
    ensures PatchAll(b, base, wrong, save).outcome == PatchAll(b, base, wrong[..n], save).outcome
    decreases |wrong| - n
  {
    if n < |wrong| {
      hide Holds, Patch, Want, Mismatch;
      assert wrong[..n + 1][..n] == wrong[..n];
      StaysStopped(b, base, wrong, save, n + 1);
    } else {
      assert wrong[..n] == wrong;
    }
  }

  // ---------------------------------------------------------------- what patching does

  /** Instructions do not overlap. */
  predicate Apart(x: Insn, y: Insn) { x.off + 4 <= y.off || y.off + 4 <= x.off }

  predicate AllApart(s: seq<Insn>) { forall i, j :: 0 <= i < j < |s| ==> Apart(s[i], s[j]) }

  /** Only bytes of mask words of the instructions found wrong differ. */
  lemma {:induction false} OnlyMasks(b: seq<u8>, base: nat, wrong: seq<Insn>, save: u16, k: nat)
    requires PatchAll(b, base, wrong, save).outcome == Patched && k < |b|
    ensures var c := PatchAll(b, base, wrong, save).bytes;
      |c| == |b| && (c[k] != b[k] ==> exists e :: e in wrong && base + e.off + 2 <= k <= base + e.off + 3)
  {
    if wrong != [] {
      hide Want;
      var n := |wrong| - 1;
      OnlyMasks(b, base, wrong[..n], save, k);
      var c := PatchAll(b, base, wrong, save).bytes;
      assert wrong[n] in wrong;
      if c[k] != b[k] && !(base + wrong[n].off + 2 <= k <= base + wrong[n].off + 3) {
        var e :| e in wrong[..n] && base + e.off + 2 <= k <= base + e.off + 3;
        assert e in wrong;
      }
    }
  }

  lemma PatchHere(b: seq<u8>, at: nat, op: u16, old': u16, mask: u16)
    requires Holds(b, at, op, old')
    ensures Holds(Patch(b, at, mask), at, op, mask)
  {
  }

  lemma PatchElsewhere(b: seq<u8>, at: nat, mask: u16, p: nat, op: u16, m: u16)
    requires at + 4 <= |b| && (p + 4 <= at || at + 4 <= p)
    ensures Holds(Patch(b, at, mask), p, op, m) <==> Holds(b, p, op, m)
  {
  }

  /** An instruction apart from all that are patched is as it was. */
  lemma {:induction false} OthersStay(b: seq<u8>, base: nat, wrong: seq<Insn>, save: u16, x: Insn, m: u16)
    requires PatchAll(b, base, wrong, save).outcome == Patched && forall e :: e in wrong ==> Apart(x, e)
    ensures Holds(PatchAll(b, base, wrong, save).bytes, base + x.off, x.op, m) <==> Holds(b, base + x.off, x.op, m)
  {
    if wrong != [] {
      hide Want, Patch;
      var n := |wrong| - 1;
      OthersStay(b, base, wrong[..n], save, x, m);
      assert wrong[n] in wrong;
      var before := PatchAll(b, base, wrong[..n], save).bytes;
      PatchElsewhere(before, base + wrong[n].off, Want(wrong[n].op, save), base + x.off, x.op, m);
    }
  }

  /** Every patched instruction has the wanted mask afterwards. */
  lemma {:induction false} WrongOnesRight(b: seq<u8>, base: nat, wrong: seq<Insn>, save: u16, i: nat)
    requires PatchAll(b, base, wrong, save).outcome == Patched && AllApart(wrong) && i < |wrong|
    ensures Holds(PatchAll(b, base, wrong, save).bytes, base + wrong[i].off, wrong[i].op, Want(wrong[i].op, save))
  {
    hide Want, Patch;
    var n := |wrong| - 1;
    var before, e := PatchAll(b, base, wrong[..n], save).bytes, wrong[n];
    if i == n {
      PatchHere(before, base + e.off, e.op, e.mask, Want(e.op, save));
    } else {
      WrongOnesRight(b, base, wrong[..n], save, i);
      PatchElsewhere(before, base + e.off, Want(e.op, save), base + wrong[i].off, wrong[i].op, Want(wrong[i].op, save));
    }
  }

  /** The listing agrees with the file. */
  predicate Listed(b: seq<u8>, base: nat, s: seq<Insn>) {
    forall i :: 0 <= i < |s| ==> Holds(b, base + s[i].off, s[i].op, s[i].mask)
  }

  /** Read again: the same instructions, with whatever masks they have now. */
  predicate SameCode(s: seq<Insn>, t: seq<Insn>) {
    |s| == |t| && forall i :: 0 <= i < |s| ==> s[i].off == t[i].off && s[i].op == t[i].op
  }

  lemma {:induction false} WrongApart(s: seq<Insn>, save: u16)
    requires AllApart(s)
    ensures AllApart(WrongOf(s, save))
  {
    if s != [] {
      hide IsWrong;
      var rest := WrongOf(s[1..], save);
      WrongApart(s[1..], save);
      forall j | 0 <= j < |rest| ensures Apart(s[0], rest[j]) {
        WrongMeans(s[1..], save, rest[j]);
        var k :| 0 <= k < |s[1..]| && s[1..][k] == rest[j];
        assert s[k + 1] == rest[j];
      }
    }
  }

  /** One instruction of ____start after the patch, read again: right if it was right, patched if it was wrong. */
  lemma RightAfterwards(b: seq<u8>, base: nat, start: seq<Insn>, save: u16, i: nat, m: u16)
    requires AllApart(start) && Listed(b, base, start) && i < |start|
    requires PatchAll(b, base, WrongOf(start, save), save).outcome == Patched
    requires Holds(PatchAll(b, base, WrongOf(start, save), save).bytes, base + start[i].off, start[i].op, m)
    ensures !IsWrong(start[i].(mask := m), save)
  {
    hide Want, PatchAll, WrongOf;
    var wrong, x := WrongOf(start, save), start[i];
    WrongMeans(start, save, x);
    if IsWrong(x, save) {
      var k :| 0 <= k < |wrong| && wrong[k] == x;
      WrongApart(start, save);
      WrongOnesRight(b, base, wrong, save, k);
    } else {
      forall e | e in wrong ensures Apart(x, e) {
        WrongMeans(start, save, e);
        var k :| 0 <= k < |start| && start[k] == e;
        assert k != i;
      }
      OthersStay(b, base, wrong, save, x, m);
    }
  }

  /**
    After a patch a second run, reading the new file, finds ____start right and exit as before, so
    it answers Ok: every save in ____start pushes the registers of exit's save, and every restore
    pops them.
   */
  lemma SecondRunOk(b: seq<u8>, base: nat, start: seq<Insn>, leave: seq<Insn>, save: u16, start2: seq<Insn>,
                    leave2: seq<Insn>)
    requires AllApart(start + leave) && Listed(b, base, start) && Listed(b, base, leave)
    requires PatchAll(b, base, WrongOf(start, save), save).outcome == Patched
    requires var c := PatchAll(b, base, WrongOf(start, save), save).bytes;
      SameCode(start, start2) && Listed(c, base, start2) && SameCode(leave, leave2) && Listed(c, base, leave2)
    ensures WrongOf(start2, save) == [] && leave2 == leave
    ensures forall i :: 0 <= i < |start2| ==>
      && (start2[i].op == MOVEM_SAVE ==> start2[i].mask == save)
      && (start2[i].op == MOVEM_REST ==> start2[i].mask == Rev16(save))
  {
    ApartParts(start, leave);
    hide PatchAll, WrongOf, AllApart, Holds, IsWrong;
    forall i | 0 <= i < |start2| ensures !IsWrong(start2[i], save) {
      RightAfterwards(b, base, start, save, i, start2[i].mask);
      assert start2[i] == start[i].(mask := start2[i].mask);
    }
    NoneWrong(start2, save);
    forall i | 0 <= i < |start2|
      ensures start2[i].op == MOVEM_SAVE ==> start2[i].mask == save
      ensures start2[i].op == MOVEM_REST ==> start2[i].mask == Rev16(save)
    {
      RightMasks(start2[i], save);
    }
    forall i | 0 <= i < |leave| ensures leave2[i] == leave[i] {
      ExitStays(b, base, start, save, leave[i], leave2[i].mask);
    }
  }

  lemma RightMasks(e: Insn, save: u16)
    requires !IsWrong(e, save)
    ensures (e.op == MOVEM_SAVE ==> e.mask == save) && (e.op == MOVEM_REST ==> e.mask == Rev16(save))
  {
  }

  lemma ExitStays(b: seq<u8>, base: nat, start: seq<Insn>, save: u16, x: Insn, m: u16)
    requires Holds(b, base + x.off, x.op, x.mask) && forall i :: 0 <= i < |start| ==> Apart(start[i], x)
    requires PatchAll(b, base, WrongOf(start, save), save).outcome == Patched
    requires Holds(PatchAll(b, base, WrongOf(start, save), save).bytes, base + x.off, x.op, m)
    ensures m == x.mask
  {
    hide PatchAll, WrongOf;
    forall e | e in WrongOf(start, save) ensures Apart(x, e) {
      WrongMeans(start, save, e);
      var k :| 0 <= k < |start| && start[k] == e;
    }
    OthersStay(b, base, WrongOf(start, save), save, x, m);
  }

  lemma ApartParts(s: seq<Insn>, t: seq<Insn>)
    requires AllApart(s + t)
    ensures AllApart(s) && forall i, j :: 0 <= i < |s| && 0 <= j < |t| ==> Apart(s[i], t[j])
  {
    var u := s + t;
    assert forall i :: 0 <= i < |s| ==> u[i] == s[i];
    assert forall j :: 0 <= j < |t| ==> u[|s| + j] == t[j];
  }

  lemma {:induction false} NoneWrong(s: seq<Insn>, save: u16)
    requires forall i :: 0 <= i < |s| ==> !IsWrong(s[i], save)
    ensures WrongOf(s, save) == []
  {
    if s != [] {
      hide IsWrong;
      NoneWrong(s[1..], save);
    }
  }

  /**
    The repaired program, read again: the repair then answers Ok and leaves the file alone, and
    when exit restores what it saves, each save of ____start names the registers each restore of
    exit names, as many of them, so the frame pushed is the frame popped.
   */
  lemma RepairedFramesAgree(b: seq<u8>, base: nat, start: seq<Insn>, leave: seq<Insn>, start2: seq<Insn>,
                            leave2: seq<Insn>, checkOnly: bool)
    requires AllApart(start + leave) && Listed(b, base, start) && Listed(b, base, leave)
    requires Verdict(Some(start), Some(leave), false, Some(base), b).outcome == Patched
    requires var c := Verdict(Some(start), Some(leave), false, Some(base), b).bytes;
      SameCode(start, start2) && Listed(c, base, start2) && SameCode(leave, leave2) && Listed(c, base, leave2)
    ensures var c := Verdict(Some(start), Some(leave), false, Some(base), b).bytes;
      Verdict(Some(start2), Some(leave2), checkOnly, Some(base), c) == Patching(Ok, c)
    ensures Mirrored(leave) ==> FramesAgree(start2, leave2)
  {
    var save := SavesOf(leave)[0].mask;
    SecondRunOk(b, base, start, leave, save, start2, leave2);
    hide PatchAll, AllApart, Listed, SameFrame;
    if Mirrored(leave) {
      SavesOfMeans(leave);
      MirrorFrame(save);
      forall x, y | x in start2 && y in leave2 && x.op == MOVEM_SAVE && y.op == MOVEM_REST
        ensures SameFrame(x.mask, y.mask)
      {
        var s := SavesOf(leave)[0];
        assert s in SavesOf(leave);
        assert x.mask == save && y.mask == Rev16(save);
      }
    }
  }

  /** Every save of the one names the registers every restore of the other names. */
  ghost predicate FramesAgree(start: seq<Insn>, leave: seq<Insn>) {
    forall x, y :: x in start && y in leave && x.op == MOVEM_SAVE && y.op == MOVEM_REST ==> SameFrame(x.mask, y.mask)
  }

  /** Every restore names the registers of every save. */
  predicate Mirrored(insns: seq<Insn>) {
    forall i, j :: 0 <= i < |insns| && 0 <= j < |insns| && insns[i].op == MOVEM_SAVE && insns[j].op == MOVEM_REST ==>
      insns[j].mask == Rev16(insns[i].mask)
  }

  ghost predicate SameFrame(pushed: u16, popped: u16) {
    Pop(pushed) == Pop(popped) && forall r: nat :: r < 16 ==> (Saves(pushed, r) <==> Restores(popped, r))
  }

  lemma MirrorFrame(save: u16)
    ensures SameFrame(save, Rev16(save))
  {
    Rev16Means(save);
    hide Pop, Bit, Rev16;
  }

  lemma {:induction false} SavesOfMeans(insns: seq<Insn>)
    ensures forall e :: e in SavesOf(insns) ==> e in insns && e.op == MOVEM_SAVE
  {
    if insns != [] {
      SavesOfMeans(insns[1..]);
    }
  }
}
