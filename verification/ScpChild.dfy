/**
  The life of scp's ssh child in clients/dropbear/amiga_scp.c and amiga_scp_runner.c: do_cmd()
  takes a signal bit, two NIL: handles, two descriptors and two SegLists, starts the runner
  process, and waitpid() or scp_cleanup() wait for that process and give everything back.
 */
module ScpChild {
  import opened Words

  const RETURN_FAIL := 20

  /** A thing taken from the system; `gen` numbers the do_cmd() call that took it. */
  datatype Res =
    | SshSeg(gen: nat) | RunnerSeg(gen: nat) | NilIn(gen: nat) | NilOut(gen: nat) | SigBit(gen: nat, bit: int)

  /** What is held, what has been given back, and whether anything was given back or used when it was not held. */
  datatype Ledger = Ledger(live: set<Res>, freed: set<Res>, misuse: bool)

  function Take(l: Ledger, x: Res): (m: Ledger) {
    Ledger(l.live + {x}, l.freed, l.misuse || x in l.live || x in l.freed)
  }

  function Free(l: Ledger, x: Res): (m: Ledger) {
    Ledger(l.live - {x}, l.freed + {x}, l.misuse || x !in l.live)
  }

  /** The process owns it from here on: NP_FreeSeglist. */
  function HandOver(l: Ledger, x: Res): (m: Ledger) {
    Ledger(l.live - {x}, l.freed, l.misuse || x !in l.live)
  }

  /** The static scp_child record; a handle or segment field is only ever zero or this call's own. */
  datatype Record = Record(active: bool, done: bool, rc: int, sigBit: int, childIn: bool, childOut: bool, segment: bool)

  const ZEROED := Record(false, false, 0, 0, false, false, false)      // memset

  type Slots = seq<Option<bool>>      // scp_fds: the pipe's direction, or a free entry

  /** Everything scp itself keeps. */
  datatype Memory = Memory(gen: nat, rec: Record, slots: Slots, ledger: Ledger)

  // ---------------------------------------------------------------- do_cmd

  /** What the system answers to the calls do_cmd() makes. */
  datatype Answers = Answers(sigBit: int, argsFit: bool, inOpens: bool, outOpens: bool,
                             sshLoads: bool, runnerLoads: bool, procStarts: bool)

  predicate AllGood(a: Answers) {
    a.sigBit >= 0 && a.argsFit && a.inOpens && a.outOpens && a.sshLoads && a.runnerLoads && a.procStarts
  }

  function FreeSlots(s: Slots): (n: nat) {
    if s == [] then 0 else FreeSlots(s[..|s| - 1]) + (if s[|s| - 1].None? then 1 else 0)
  }

  /** Nothing of the next call's has been taken or given back yet. */
  ghost predicate Fresh(m: Memory) { forall x :: x in m.ledger.live || x in m.ledger.freed ==> x.gen <= m.gen }

  /** A call that fails holds nothing more than before; what it gave back it had taken itself. */
  ghost predicate Failed(m: Memory, n: Memory) {
    && n.slots == m.slots && n.ledger.live == m.ledger.live && n.ledger.misuse == m.ledger.misuse
    && (m.rec.active ==> n == m)
    && (!m.rec.active ==> !n.rec.active && !n.rec.childIn && !n.rec.childOut && !n.rec.segment)
    && m.gen <= n.gen <= m.gen + 1
    && m.ledger.freed <= n.ledger.freed
    && (forall x :: x in n.ledger.freed - m.ledger.freed ==> x.gen == m.gen + 1 == n.gen)
  }

  /** A call that succeeds holds exactly what the record names, and two descriptors of opposite direction. */
  ghost predicate Started(m: Memory, n: Memory, bit: int) {
    && n.gen == m.gen + 1
    && n.rec == Record(true, false, 0, bit, true, true, true)
    && n.ledger == Ledger(m.ledger.live + {SshSeg(n.gen), NilIn(n.gen), NilOut(n.gen), SigBit(n.gen, bit)},
                          m.ledger.freed, m.ledger.misuse)
    && |m.slots| == |n.slots|
    && exists w, r :: 0 <= w < |m.slots| && 0 <= r < |m.slots| && w != r
         && m.slots[w].None? && m.slots[r].None? && n.slots == m.slots[w := Some(false)][r := Some(true)]
  }

  lemma {:induction false} NoFreeSlot(s: Slots)
    ensures FreeSlots(s) == 0 <==> forall i :: 0 <= i < |s| ==> s[i].Some?
  {
    if s != [] {
      NoFreeSlot(s[..|s| - 1]);
      assert s == s[..|s| - 1] + [s[|s| - 1]];
    }
  }

  lemma {:induction false} FillSlot(s: Slots, i: nat, v: bool)
    requires i < |s| && s[i].None?
    ensures FreeSlots(s[i := Some(v)]) == FreeSlots(s) - 1
  {
    var init := s[..|s| - 1];
    if i < |s| - 1 {
      FillSlot(init, i, v);
      assert s[i := Some(v)][..|s| - 1] == init[i := Some(v)];
    } else {
      assert s[i := Some(v)][..|s| - 1] == init;
    }
  }

  class ScpClient {
    var gen: nat
    var rec: Record
    var slots: Slots
    var ledger: Ledger

    ghost function Now(): (m: Memory)
      reads this
    {
      Memory(gen, rec, slots, ledger)
    }

    /** scp_fd_take: the first free entry, or -1 when there is none. */
    method FdTake(readable: bool) returns (fd: int)
      modifies this`slots
      ensures fd == -1 <==> FreeSlots(old(slots)) == 0
      ensures fd == -1 ==> slots == old(slots)
      ensures fd != -1 ==> 0 <= fd < |old(slots)| && old(slots)[fd].None? && slots == old(slots)[fd := Some(readable)]
      ensures fd != -1 ==> forall j :: 0 <= j < fd ==> old(slots)[j].Some?
      ensures fd != -1 ==> FreeSlots(slots) == FreeSlots(old(slots)) - 1
    {
      NoFreeSlot(slots);
      for i := 0 to |slots|
        invariant slots == old(slots)
        invariant forall j :: 0 <= j < i ==> slots[j].Some?
      {
        if slots[i].None? {
          FillSlot(slots, i, readable);
          slots := slots[i := Some(readable)];
          return i;
        }
      }
      return -1;
    }

    /** __wrap_close on one of the pipe descriptors. */
    method FdClose(fd: int)
      requires fd == -1 || 0 <= fd < |slots|
      modifies this`slots
      ensures slots == if fd == -1 then old(slots) else old(slots)[fd := None]
    {
      if fd != -1 {
        slots := slots[fd := None];
      }
    }

    /** scp_start_ssh: both SegLists and the process, or nothing. */
    method StartSsh(a: Answers) returns (ok: bool)
      requires SshSeg(gen) !in ledger.live && RunnerSeg(gen) !in ledger.live
      requires SshSeg(gen) !in ledger.freed && RunnerSeg(gen) !in ledger.freed && !rec.segment
      modifies this`rec, this`ledger
      ensures ok == (a.sshLoads && a.runnerLoads && a.procStarts)
      ensures ok ==> rec == old(rec).(segment := true, active := true)
      ensures ok ==> ledger == old(ledger).(live := old(ledger).live + {SshSeg(gen)})
      ensures !ok ==> rec == old(rec) && ledger.live == old(ledger).live && ledger.misuse == old(ledger).misuse
      ensures !ok ==> ledger.freed == old(ledger).freed + Loaded(gen, a)
    {
      ghost var l0 := ledger;
      if !a.sshLoads {
        return false;
      }
      ledger := Take(ledger, SshSeg(gen));
      if !a.runnerLoads {
        ledger := Free(ledger, SshSeg(gen));
        assert ledger.live == l0.live;
        return false;
      }
      ledger := Take(ledger, RunnerSeg(gen));
      rec := rec.(segment := true);
      if a.procStarts {
        rec := rec.(active := true);
        ledger := HandOver(ledger, RunnerSeg(gen));
        assert ledger.live == l0.live + {SshSeg(gen)};
        return true;
      }
      ledger := Free(ledger, SshSeg(gen));
      ledger := Free(ledger, RunnerSeg(gen));
      rec := rec.(segment := false);
      assert ledger.live == l0.live;
      return false;
    }

    /**
      The middle of do_cmd(): handles, descriptors, process. When it stops early, the ledger has
      exactly what the record names and the descriptors returned are the entries taken.
     */
    method Connect(a: Answers) returns (ok: bool, readfd: int, writefd: int)
      requires rec == ZEROED.(sigBit := rec.sigBit) && Unused(ledger, gen)
      modifies this`rec, this`slots, this`ledger
      ensures ok <==>
        a.inOpens && a.outOpens && FreeSlots(old(slots)) >= 2 && a.sshLoads && a.runnerLoads && a.procStarts
      ensures ok ==> rec == Record(true, false, 0, old(rec).sigBit, true, true, true)
      ensures ok ==> ledger == old(ledger).(live := old(ledger).live + {SshSeg(gen), NilIn(gen), NilOut(gen)})
      ensures ok ==> 0 <= readfd < |slots| && 0 <= writefd < |slots|
      ensures readfd == -1 || (writefd != -1 && 0 <= readfd < |slots|)
      ensures writefd == -1 || 0 <= writefd < |slots|
      ensures |slots| == |old(slots)| && Taken(old(slots), slots, readfd, writefd)
      ensures !ok ==> rec == ZEROED.(sigBit := old(rec).sigBit, childIn := a.inOpens, childOut := a.outOpens)
      ensures !ok ==> ledger.live == old(ledger).live + Handles(gen, rec) && ledger.misuse == old(ledger).misuse
      ensures !ok ==> old(ledger).freed <= ledger.freed <= old(ledger).freed + {SshSeg(gen), RunnerSeg(gen)}
    {
      readfd, writefd := -1, -1;
      ghost var l0 := ledger;
      ok := false;
      OpenHandles(a);
      if !rec.childIn || !rec.childOut {
        return;
      }
      writefd := FdTake(false);
      if writefd < 0 {
        return;
      }
      readfd := FdTake(true);
      if readfd < 0 {
        return;
      }
      ok := StartSsh(a);
      assert !ok ==> Loaded(gen, a) <= {SshSeg(gen), RunnerSeg(gen)};
      assert ok ==> ledger.live == l0.live + {SshSeg(gen), NilIn(gen), NilOut(gen)};
    }

    method OpenHandles(a: Answers)
      requires rec == ZEROED.(sigBit := rec.sigBit) && Unused(ledger, gen)
      modifies this`rec, this`ledger
      ensures rec == old(rec).(childIn := a.inOpens, childOut := a.outOpens)
      ensures ledger == old(ledger).(live := old(ledger).live + Handles(gen, rec))
    {
      ghost var l0 := ledger;
      if a.inOpens {
        ledger := Take(ledger, NilIn(gen));
        rec := rec.(childIn := true);
      }
      if a.outOpens {
        ledger := Take(ledger, NilOut(gen));
        rec := rec.(childOut := true);
      }
      assert ledger.live == l0.live + Handles(gen, rec);
    }

    /** The fail label of do_cmd(). */
    method Release(readfd: int, writefd: int)
      requires readfd == -1 || 0 <= readfd < |slots|
      requires writefd == -1 || 0 <= writefd < |slots|
      requires rec.sigBit >= 0 && Handles(gen, rec) <= ledger.live && SigBit(gen, rec.sigBit) in ledger.live
      modifies this`rec, this`slots, this`ledger
      ensures rec == ZEROED && slots == Cleared(Cleared(old(slots), readfd), writefd)
      ensures ledger.live == old(ledger).live - Handles(gen, old(rec)) - {SigBit(gen, old(rec).sigBit)}
      ensures ledger.freed == old(ledger).freed + Handles(gen, old(rec)) + {SigBit(gen, old(rec).sigBit)}
      ensures ledger.misuse == old(ledger).misuse
    {
      FdClose(readfd);
      FdClose(writefd);
      if rec.childIn { ledger := Free(ledger, NilIn(gen)); }
      if rec.childOut { ledger := Free(ledger, NilOut(gen)); }
      if rec.sigBit >= 0 { ledger := Free(ledger, SigBit(gen, rec.sigBit)); }
      rec := ZEROED;
    }

    /**
      do_cmd(): it succeeds exactly when no child is active, every call it makes succeeds and two
      descriptors are free; every failing exit leaves held what was held before.
     */
    method DoCmd(a: Answers) returns (r: int)
      requires Fresh(Now())
      modifies this
      ensures r == 0 || r == -1
      ensures r == 0 <==> !old(rec).active && AllGood(a) && FreeSlots(old(slots)) >= 2
      ensures r == 0 ==> Started(old(Now()), Now(), a.sigBit)
      ensures r == -1 ==> Failed(old(Now()), Now())
    {
      hide FreeSlots;
      if rec.active {
        return -1;
      }
      rec := ZEROED.(sigBit := a.sigBit);
      if a.sigBit < 0 {
        return -1;
      }
      r := Launch(a);
    }

    /** From the signal bit on: the rest of a start, or the fail label. */
    method Launch(a: Answers) returns (r: int)
      requires Fresh(Now()) && a.sigBit >= 0 && rec == ZEROED.(sigBit := a.sigBit)
      modifies this
      ensures r == 0 || r == -1
      ensures r == 0 <==> AllGood(a) && FreeSlots(old(slots)) >= 2
      ensures r == 0 ==> Started(old(Now()), Now(), a.sigBit)
      ensures r == -1 ==> Released(old(Now()), Now())
    {
      ghost var m := Now();
      gen := gen + 1;
      BitTaken(m, a.sigBit);
      ledger := Take(ledger, SigBit(gen, a.sigBit));
      hide Fresh, Take, Started, Released, FreeSlots, Taken, Handles, Unused;
      var ok, readfd, writefd := a.argsFit, -1, -1;
      if ok {
        ok, readfd, writefd := Connect(a);
      }
      if ok {
        AllStarted(m, Now(), a.sigBit, readfd, writefd);
        return 0;
      }
      Abandon(readfd, writefd, m, a.sigBit);
      return -1;
    }

    /** The fail label, with exactly what this call took so far. */
    method Abandon(readfd: int, writefd: int, ghost m: Memory, bit: int)
      requires gen == m.gen + 1 && bit >= 0
      requires rec == ZEROED.(sigBit := bit, childIn := rec.childIn, childOut := rec.childOut)
      requires |slots| == |m.slots| && (readfd == -1 || (writefd != -1 && 0 <= readfd < |slots|))
      requires (writefd == -1 || 0 <= writefd < |slots|) && Taken(m.slots, slots, readfd, writefd)
      requires ledger.live == m.ledger.live + {SigBit(gen, bit)} + Handles(gen, rec) && ledger.misuse == m.ledger.misuse
      requires SigBit(gen, bit) !in m.ledger.live && NilIn(gen) !in m.ledger.live && NilOut(gen) !in m.ledger.live
      requires m.ledger.freed <= ledger.freed <= m.ledger.freed + {SshSeg(gen), RunnerSeg(gen)}
      modifies this
      ensures Released(m, Now())
    {
      ghost var handles := Handles(gen, rec);
      Release(readfd, writefd);
      assert ledger.live == m.ledger.live;
      assert slots == m.slots;
    }
  }

  /** Taking the signal bit of a new call is in order, and leaves the call's other things untaken. */
  lemma BitTaken(m: Memory, bit: int)
    requires Fresh(m)
    ensures var x := SigBit(m.gen + 1, bit); var l := Take(m.ledger, x);
      && x !in m.ledger.live && l.live == m.ledger.live + {x} && l.freed == m.ledger.freed
      && l.misuse == m.ledger.misuse
      && Unused(l, m.gen + 1) && NilIn(m.gen + 1) !in m.ledger.live && NilOut(m.gen + 1) !in m.ledger.live
  {
  }

  lemma AllStarted(m: Memory, n: Memory, bit: int, readfd: int, writefd: int)
    requires n.gen == m.gen + 1 && n.rec == Record(true, false, 0, bit, true, true, true)
    requires n.ledger.live == m.ledger.live + {SigBit(n.gen, bit)} + {SshSeg(n.gen), NilIn(n.gen), NilOut(n.gen)}
    requires n.ledger.freed == m.ledger.freed && n.ledger.misuse == m.ledger.misuse
    requires |n.slots| == |m.slots| && 0 <= readfd < |m.slots| && 0 <= writefd < |m.slots|
    requires Taken(m.slots, n.slots, readfd, writefd)
    ensures Started(m, n, bit)
  {
    assert n.ledger.live == m.ledger.live + {SshSeg(n.gen), NilIn(n.gen), NilOut(n.gen), SigBit(n.gen, bit)};
    assert m.slots[writefd].None? && m.slots[readfd].None?;
  }

  /** What was held is held, and what was given back besides was taken by this call. */
  ghost predicate Released(m: Memory, n: Memory) {
    && n.slots == m.slots && n.ledger.live == m.ledger.live && n.ledger.misuse == m.ledger.misuse && n.rec == ZEROED
    && n.gen == m.gen + 1
    && m.ledger.freed <= n.ledger.freed && forall x :: x in n.ledger.freed - m.ledger.freed ==> x.gen == n.gen
  }

  /** The SegLists a failing scp_start_ssh loads, and so unloads. */
  ghost function Loaded(gen: nat, a: Answers): (x: set<Res>) {
    if !a.sshLoads then {} else if !a.runnerLoads then {SshSeg(gen)} else {SshSeg(gen), RunnerSeg(gen)}
  }

  ghost function Handles(gen: nat, r: Record): (x: set<Res>) {
    (if r.childIn then {NilIn(gen)} else {}) + (if r.childOut then {NilOut(gen)} else {})
  }

  ghost predicate Unused(l: Ledger, gen: nat) {
    && SshSeg(gen) !in l.live && RunnerSeg(gen) !in l.live && NilIn(gen) !in l.live && NilOut(gen) !in l.live
    && SshSeg(gen) !in l.freed && RunnerSeg(gen) !in l.freed && NilIn(gen) !in l.freed && NilOut(gen) !in l.freed
  }

  function Cleared(s: Slots, fd: int): (t: Slots)
    requires fd == -1 || 0 <= fd < |s|
    ensures |t| == |s|
  {
    if fd == -1 then s else s[fd := None]
  }

  /** `t` is `s` with the given entries, free in `s`, filled. */
  ghost predicate Taken(s: Slots, t: Slots, readfd: int, writefd: int)
    requires |s| == |t|
    requires readfd == -1 || (writefd != -1 && 0 <= readfd < |s|)
    requires writefd == -1 || 0 <= writefd < |s|
  {
    && (writefd == -1 ==> t == s)
    && (writefd != -1 ==> s[writefd].None?)
    && (writefd != -1 && readfd == -1 ==> t == s[writefd := Some(false)])
    && (readfd != -1 ==> readfd != writefd && s[readfd].None? && t == s[writefd := Some(false)][readfd := Some(true)])
  }

  // ---------------------------------------------------------------- the two processes

  /** The runner, from its first instruction to leaving Exec's lists. */
  datatype Runner =
    | Absent
    | Boot                          // about to RunCommand()
    | InSsh                         // inside ssh's code
    | Returned(rc: int)             // about to store the return code
    | Stored                        // about to set the done flag
    | Flagged                       // about to signal
    | Tail                          // leaving through dos.library

  datatype Why = AtExit | ForWaitpid

  /** Where scp is: in its own code, or at one of the loads and stores of scp_child_wait and waitpid. */
  datatype Parent =
    | Own
    | LoadDone(why: Why)            // while (!done)
    | LoadAlive(why: Why)           // if (!scp_task_alive(target))
    | Linger(why: Why)              // while (scp_task_alive(target))
    | Unload(why: Why) | CloseIn(why: Why) | CloseOut(why: Why)
    | Report | GiveSignal | Wipe    // the rest of waitpid

  datatype Sys = Sys(m: Memory, runner: Runner, parent: Parent,
                     result: Option<int>,       // what RunCommand returned in this run
                     presumed: bool,            // the wait loop gave up on the runner
                     status: Option<int>)       // what the last waitpid stored

  datatype Event =
    | CallDoCmd(after: Memory, bit: int) | CallWaitpid(known: bool) | CallCleanup | CallClose(fd: nat)
    | ParentStep(reused: bool)      // whether another task has the runner's old address
    | RunnerStep(rc: int) | RunnerFault

  ghost predicate Enabled(s: Sys, e: Event) {
    match e
    case CallDoCmd(after, bit) =>
      s.parent.Own? && (Failed(s.m, after) || (!s.m.rec.active && bit >= 0 && Started(s.m, after, bit)))
    case CallWaitpid(_) => s.parent.Own?
    case CallCleanup => s.parent.Own?
    case CallClose(fd) => s.parent.Own? && fd < |s.m.slots|
    case ParentStep(reused) => !s.parent.Own?
    case RunnerStep(_) => !s.runner.Absent?
    case RunnerFault => !s.runner.Absent?
  }

  /** The runner's descriptor, its segment and its two handles are all there, of this run. */
  predicate RunnerMayTouch(m: Memory) {
    && m.rec.active && m.rec.segment
    && SshSeg(m.gen) in m.ledger.live && NilIn(m.gen) in m.ledger.live && NilOut(m.gen) in m.ledger.live
  }

  function Flag(l: Ledger, wrong: bool): (r: Ledger) { l.(misuse := l.misuse || wrong) }

  function RunnerNext(s: Sys, rc: int): (t: Sys) {
    s.(runner := match s.runner
         case Boot => InSsh
         case InSsh => Returned(rc)
         case Returned(_) => Stored
         case Stored => Flagged
         case Flagged => Tail
         case _ => Absent,
       result := if s.runner.InSsh? then Some(rc) else s.result,
       m := s.m.(
         rec := s.m.rec.(rc := if s.runner.Returned? then s.runner.rc else s.m.rec.rc,
                         done := s.m.rec.done || s.runner.Stored?),
         ledger := Flag(s.m.ledger, !RunnerMayTouch(s.m))))
  }

  /** scp_task_alive: the address is on one of Exec's lists, the runner's or a later task's. */
  predicate SeemsAlive(s: Sys, reused: bool) { !s.runner.Absent? || reused }

  function ParentPc(s: Sys, reused: bool): (p: Parent) {
    match s.parent
    case Own => Own
    case LoadDone(w) => if s.m.rec.done then Linger(w) else LoadAlive(w)
    case LoadAlive(w) => if SeemsAlive(s, reused) then LoadDone(w) else Linger(w)
    case Linger(w) => if SeemsAlive(s, reused) then Linger(w) else Unload(w)
    case Unload(w) => CloseIn(w)
    case CloseIn(w) => CloseOut(w)
    case CloseOut(w) => if w.AtExit? then Own else Report
    case Report => GiveSignal
    case GiveSignal => Wipe
    case Wipe => Own
  }

  /** Presuming the runner lost: the branch that stores a failure code itself. */
  predicate GivesUp(s: Sys, reused: bool) { s.parent.LoadAlive? && !SeemsAlive(s, reused) }

  function ParentRec(s: Sys, reused: bool): (r: Record) {
    if GivesUp(s, reused) then s.m.rec.(rc := RETURN_FAIL, done := true)
    else match s.parent
      case Unload(_) => s.m.rec.(segment := false)
      case CloseIn(_) => s.m.rec.(childIn := false)
      case CloseOut(_) => s.m.rec.(childOut := false)
      case Wipe => ZEROED
      case _ => s.m.rec
  }

  function ParentLedger(s: Sys): (l: Ledger) {
    var m := s.m;
    match s.parent
    case Unload(_) => if m.rec.segment then Flag(Free(m.ledger, SshSeg(m.gen)), !s.runner.Absent?) else m.ledger
    case CloseIn(_) => if m.rec.childIn then Flag(Free(m.ledger, NilIn(m.gen)), !s.runner.Absent?) else m.ledger
    case CloseOut(_) => if m.rec.childOut then Flag(Free(m.ledger, NilOut(m.gen)), !s.runner.Absent?) else m.ledger
    case GiveSignal => Free(m.ledger, SigBit(m.gen, m.rec.sigBit))
    case Wipe => Flag(m.ledger, !s.runner.Absent?)
    case _ => m.ledger
  }

  /** The wait status: the low byte of the code, or 127 when it is negative, in the exit-status byte. */
  function WaitStatus(rc: int): (w: nat) { (if rc < 0 then 127 else rc % 256) * 256 }

  function ParentNext(s: Sys, reused: bool): (t: Sys) {
    s.(parent := ParentPc(s, reused),
       m := s.m.(rec := ParentRec(s, reused), ledger := ParentLedger(s)),
       presumed := s.presumed || GivesUp(s, reused),
       status := if s.parent.Report? then Some(WaitStatus(s.m.rec.rc)) else s.status)
  }

  function Apply(s: Sys, e: Event): (t: Sys)
    requires e.CallClose? ==> e.fd < |s.m.slots|
  {
    match e
    case CallDoCmd(after, _) =>
      if after.rec.active && !s.m.rec.active then s.(m := after, runner := Boot, result := None, presumed := false)
      else s.(m := after)
    case CallWaitpid(known) => if s.m.rec.active && known then s.(parent := LoadDone(ForWaitpid)) else s
    case CallCleanup =>
      s.(m := s.m.(slots := seq(|s.m.slots|, _ => None)), parent := if s.m.rec.active then LoadDone(AtExit) else Own)
    case CallClose(fd) => s.(m := s.m.(slots := s.m.slots[fd := None]))
    case ParentStep(reused) => ParentNext(s, reused)
    case RunnerStep(rc) => RunnerNext(s, rc)
    case RunnerFault => s.(runner := Absent)
  }

  ghost const INITIAL :=
    Sys(Memory(0, ZEROED, [None, None, None, None], Ledger({}, {}, false)), Absent, Own, None, false, None)

  // ---------------------------------------------------------------- what always holds

  /** The things the record names, as long as it names a run. */
  ghost function Named(m: Memory, p: Parent): (x: set<Res>) {
    Handles(m.gen, m.rec)
    + (if m.rec.segment then {SshSeg(m.gen)} else {})
    + (if m.rec.active && !p.Wipe? then {SigBit(m.gen, m.rec.sigBit)} else {})
  }

  /** No leak and no double release: held is what the record names, and nothing held was given back. */
  ghost predicate LedgerOk(m: Memory, p: Parent) {
    && !m.ledger.misuse
    && m.ledger.live == Named(m, p)
    && m.ledger.live !! m.ledger.freed
    && Fresh(m)
  }

  /** While the runner is there, so is everything it uses, and scp has not got past its waiting. */
  predicate RunnerOk(s: Sys) {
    && (!s.runner.Absent? ==>
          && s.m.rec.active && s.m.rec.segment && s.m.rec.childIn && s.m.rec.childOut && !s.presumed
          && (s.parent.Own? || s.parent.LoadDone? || s.parent.LoadAlive? || s.parent.Linger?))
    && (!s.parent.Own? ==> s.m.rec.active)
    && (!s.m.rec.active ==> !s.m.rec.segment && !s.m.rec.childIn && !s.m.rec.childOut)
    && (s.parent.CloseIn? || s.parent.CloseOut? || s.parent.Report? || s.parent.GiveSignal? || s.parent.Wipe? ==>
          !s.m.rec.segment)
    && (s.parent.CloseOut? || s.parent.Report? || s.parent.GiveSignal? || s.parent.Wipe? ==> !s.m.rec.childIn)
    && (s.parent.Report? || s.parent.GiveSignal? || s.parent.Wipe? ==> !s.m.rec.childOut)
  }

  /** Which code the record holds, and where it came from. */
  predicate CodeOk(s: Sys) {
    && (s.presumed && s.m.rec.active ==> s.m.rec.rc == RETURN_FAIL)
    && (s.m.rec.active && s.m.rec.done && !s.presumed ==> s.result == Some(s.m.rec.rc))
    && (s.runner.Returned? ==> s.result == Some(s.runner.rc))
    && (s.runner.Stored? || s.runner.Flagged? || s.runner.Tail? ==> s.result == Some(s.m.rec.rc))
    && (s.runner.Boot? || s.runner.InSsh? || s.runner.Returned? ==> !s.m.rec.done)
    && (!s.parent.Own? && !s.parent.LoadDone? && !s.parent.LoadAlive? ==> s.m.rec.done)
  }

  /** The cleanup has closed every descriptor before it waits. */
  predicate CleaningUp(p: Parent) {
    match p
    case LoadDone(w) => w.AtExit?
    case LoadAlive(w) => w.AtExit?
    case Linger(w) => w.AtExit?
    case Unload(w) => w.AtExit?
    case CloseIn(w) => w.AtExit?
    case CloseOut(w) => w.AtExit?
    case _ => false
  }

  predicate NoneTaken(slots: Slots) { forall i :: 0 <= i < |slots| ==> slots[i].None? }

  predicate SlotsOk(s: Sys) {
    |s.m.slots| == 4 && (CleaningUp(s.parent) ==> NoneTaken(s.m.slots))
  }

  ghost predicate Inv(s: Sys) {
    LedgerOk(s.m, s.parent) && RunnerOk(s) && CodeOk(s)
  }

  lemma RunnerKeeps(s: Sys, rc: int)
    requires Inv(s) && !s.runner.Absent?
    ensures Inv(RunnerNext(s, rc))
  {
  }

  lemma ParentKeepsLedger(s: Sys, reused: bool)
    requires Inv(s) && !s.parent.Own?
    ensures LedgerOk(ParentNext(s, reused).m, ParentPc(s, reused))
  {
    hide CodeOk, WaitStatus;
  }

  lemma ParentKeeps(s: Sys, reused: bool)
    requires Inv(s) && !s.parent.Own?
    ensures Inv(ParentNext(s, reused))
  {
    ParentKeepsLedger(s, reused);
    hide LedgerOk, ParentLedger, WaitStatus;
  }

  lemma DoCmdKeeps(s: Sys, after: Memory, bit: int)
    requires Inv(s) && Enabled(s, CallDoCmd(after, bit))
    ensures Inv(Apply(s, CallDoCmd(after, bit)))
  {
    if s.m.rec.active {
    } else if Failed(s.m, after) && !after.rec.active {
      assert after.ledger.live == {};
      assert LedgerOk(after, Own);
    } else {
      assert after.ledger.live == Named(after, Own);
    }
  }

  lemma StepKeeps(s: Sys, e: Event)
    requires Inv(s) && Enabled(s, e)
    ensures Inv(Apply(s, e))
  {
    match e
    case CallDoCmd(after, bit) => DoCmdKeeps(s, after, bit);
    case ParentStep(reused) => ParentKeeps(s, reused);
    case RunnerStep(rc) => RunnerKeeps(s, rc);
    case _ =>
  }

  // ---------------------------------------------------------------- every run

  ghost predicate IsRun(run: seq<Sys>, events: seq<Event>) {
    && |run| == |events| + 1 && run[0] == INITIAL
    && forall i :: 0 <= i < |events| ==> Enabled(run[i], events[i]) && run[i + 1] == Apply(run[i], events[i])
  }

  lemma {:induction false} EveryStateOk(run: seq<Sys>, events: seq<Event>, i: nat)
    requires IsRun(run, events) && i < |run|
    ensures Inv(run[i])
  {
    if i > 0 {
      EveryStateOk(run, events, i - 1);
      StepKeeps(run[i - 1], events[i - 1]);
    }
  }

  lemma {:induction false} EverySlotsOk(run: seq<Sys>, events: seq<Event>, i: nat)
    requires IsRun(run, events) && i < |run|
    ensures SlotsOk(run[i])
  {
    if i > 0 {
      EverySlotsOk(run, events, i - 1);
      SlotsKept(run[i - 1], events[i - 1]);
    }
  }

  lemma SlotsKept(s: Sys, e: Event)
    requires SlotsOk(s) && Enabled(s, e)
    ensures SlotsOk(Apply(s, e))
  {
    hide ParentLedger, ParentRec, Free, WaitStatus;
  }

  lemma FreedGrows(s: Sys, e: Event)
    requires Inv(s) && Enabled(s, e)
    ensures s.m.ledger.freed <= Apply(s, e).m.ledger.freed
  {
    hide Inv;
  }

  /** One step further, what was given back still is, and is not held. */
  lemma StillGivenBack(run: seq<Sys>, events: seq<Event>, j: nat, x: Res)
    requires IsRun(run, events) && j < |run|
    ensures x in run[j].m.ledger.freed ==> x !in run[j].m.ledger.live
    ensures j < |events| && x in run[j].m.ledger.freed ==> x in run[j + 1].m.ledger.freed
  {
    EveryStateOk(run, events, j);
    if j < |events| {
      FreedGrows(run[j], events[j]);
    }
    hide Apply, Enabled, RunnerOk, CodeOk, Named, Fresh;
  }

  /** A thing once given back is never held again, so it is given back once. */
  lemma {:induction false} GivenBackOnce(run: seq<Sys>, events: seq<Event>, i: nat, j: nat, x: Res)
    requires IsRun(run, events) && i <= j < |run| && x in run[i].m.ledger.freed
    ensures x in run[j].m.ledger.freed && x !in run[j].m.ledger.live
    decreases j - i
  {
    assert |run| == |events| + 1;
    hide *;
    StillGivenBack(run, events, j, x);
    if i < j {
      GivenBackOnce(run, events, i, j - 1, x);
      StillGivenBack(run, events, j - 1, x);
    }
  }

  /**
    What the runner uses outlives it: while it is there its SegList and handles are held and the
    record is its own, and the step that gives any of them back or wipes the record finds it gone.
   */
  lemma RunnerComesFirst(run: seq<Sys>, events: seq<Event>, i: nat)
    requires IsRun(run, events) && i < |run|
    ensures !run[i].m.ledger.misuse
    ensures !run[i].runner.Absent? ==> RunnerMayTouch(run[i].m)
    ensures i < |events| && run[i].m.rec.active && run[i].m.rec != run[i + 1].m.rec && !run[i].runner.Absent? ==>
      run[i + 1].m.rec.active && run[i + 1].m.rec.segment && run[i + 1].m.rec.childIn && run[i + 1].m.rec.childOut
    ensures i < |events| && events[i].CallDoCmd? && !run[i].m.rec.active ==> run[i].runner.Absent?
  {
    EveryStateOk(run, events, i);
    hide FreeSlots;
  }

  /** With no child active nothing is held, whatever failed, was waited for or was cleaned up before. */
  lemma NothingLeft(run: seq<Sys>, events: seq<Event>, i: nat)
    requires IsRun(run, events) && i < |run| && !run[i].m.rec.active
    ensures run[i].m.ledger.live == {}
  {
    EveryStateOk(run, events, i);
  }

  /** After any cleanup of an active child only the signal bit is held, for waitpid() to give back; no descriptor is. */
  lemma CleanupLeavesSignal(run: seq<Sys>, events: seq<Event>, i: nat)
    requires IsRun(run, events) && i < |events| && events[i].ParentStep? && run[i].parent == CloseOut(AtExit)
    ensures run[i + 1].parent.Own? && run[i + 1].m.rec.active
    ensures run[i + 1].m.ledger.live == {SigBit(run[i].m.gen, run[i].m.rec.sigBit)}
    ensures NoneTaken(run[i + 1].m.slots)
  {
    EveryStateOk(run, events, i);
    EveryStateOk(run, events, i + 1);
    EverySlotsOk(run, events, i);
  }

  /**
    How a caller of waitpid() reads a status: the low byte is 0, so the child exited, and the byte
    above it is the exit code, the low byte of what ssh returned, or 127 for a negative code.
   */
  predicate Reports(status: nat, rc: int) {
    && status < 0x1_0000 && status % 0x100 == 0
    && (if rc < 0 then status / 0x100 == 127 else (rc - status / 0x100) % 0x100 == 0)
  }

  lemma WaitStatusReports(rc: int, other: int)
    ensures Reports(WaitStatus(rc), rc)
    ensures Reports(WaitStatus(rc), other) <==> WaitStatus(rc) == WaitStatus(other)
  {
    StatusByte(rc);
    StatusByte(other);
    ByteAgrees(other, WaitStatus(rc) / 0x100);
  }

  lemma StatusByte(rc: int)
    ensures var w := WaitStatus(rc);
      w % 0x100 == 0 && w / 0x100 < 0x100 && (rc < 0 ==> w / 0x100 == 127) && (rc >= 0 ==> w / 0x100 == rc % 0x100)
  {
  }

  lemma ByteAgrees(rc: int, b: nat)
    requires b < 0x100
    ensures (rc - b) % 0x100 == 0 <==> rc % 0x100 == b
  {
    if (rc - b) % 0x100 == 0 {
      DivModUnique(rc, 0x100, (rc - b) / 0x100, b);
    }
    if rc % 0x100 == b {
      DivModUnique(rc - b, 0x100, rc / 0x100, 0);
    }
  }

  /**
    waitpid() reports the code ssh returned exactly when the wait did not give up on the runner,
    or when that code reads as the 20 stored instead; so scp sees success for a code that is not
    negative and whose low byte is 0, and for no other.
   */
  lemma StatusIsResultIff(run: seq<Sys>, events: seq<Event>, i: nat)
    requires IsRun(run, events) && i < |events| && events[i].ParentStep? && run[i].parent.Report?
    ensures run[i + 1].status.Some?
    ensures !run[i].presumed ==> run[i].result.Some?
    ensures var s := run[i];
      (s.result.Some? && Reports(run[i + 1].status.value, s.result.value))
        <==> !s.presumed || (s.result.Some? && s.result.value >= 0 && s.result.value % 0x100 == 20)
    ensures run[i].presumed ==> run[i + 1].status.value == 20 * 0x100
    ensures run[i + 1].status.value == 0 <==>
            !run[i].presumed && run[i].result.value >= 0 && run[i].result.value % 0x100 == 0
  {
    EveryStateOk(run, events, i);
    var s := run[i];
    assert run[i + 1].status == Some(WaitStatus(s.m.rec.rc));
    assert s.presumed ==> s.m.rec.rc == 20;
    assert !s.presumed ==> s.result == Some(s.m.rec.rc);
    StatusByte(s.m.rec.rc);
    if s.result.Some? {
      WaitStatusReports(s.m.rec.rc, s.result.value);
      StatusByte(s.result.value);
    }
    hide Reports, Inv, IsRun;
  }

  /** How far a waiting scp is from its own code, and a runner from its end. */
  function Left(p: Parent): (n: nat) {
    match p
    case Own => 0
    case LoadDone(_) => 9
    case LoadAlive(_) => 8
    case Linger(_) => 7
    case Unload(_) => 6
    case CloseIn(_) => 5
    case CloseOut(_) => 4
    case Report => 3
    case GiveSignal => 2
    case Wipe => 1
  }

  function ToRun(r: Runner): (n: nat) {
    match r
    case Absent => 0
    case Boot => 6
    case InSsh => 5
    case Returned(_) => 4
    case Stored => 3
    case Flagged => 2
    case Tail => 1
  }

  /**
    The wait ends: a runner that runs gets nearer its end at each step, one that faulted has ended,
    and once it is gone every step of scp gets nearer its return, done flag set or not, exactly
    unless a later task has the runner's address when scp asks whether the runner is alive.
   */
  lemma WaitEnds(s: Sys, rc: int, reused: bool)
    ensures !s.runner.Absent? ==> ToRun(RunnerNext(s, rc).runner) < ToRun(s.runner)
    ensures !s.parent.Own? && s.runner.Absent? ==>
      (Left(ParentNext(s, reused).parent) < Left(s.parent) <==> !(reused && (s.parent.LoadAlive? || s.parent.Linger?)))
  {
  }

  ghost predicate Reachable(s: Sys) { exists run, events :: IsRun(run, events) && run[|events|] == s }

  lemma ReachStep(s: Sys, e: Event) returns (t: Sys)
    requires Reachable(s) && Enabled(s, e)
    ensures t == Apply(s, e) && Reachable(t)
  {
    var run, events :| IsRun(run, events) && run[|events|] == s;
    t := Apply(s, e);
    assert IsRun(run + [t], events + [e]);
  }

  /** scp about to ask whether the runner is alive, having found the done flag clear; ssh still to start. */
  lemma PollMidway() returns (s: Sys)
    ensures Reachable(s) && s.parent == LoadAlive(ForWaitpid) && s.runner.Boot?
  {
    var m := Memory(1, Record(true, false, 0, 3, true, true, true), [Some(false), Some(true), None, None],
                    Ledger({SshSeg(1), NilIn(1), NilOut(1), SigBit(1, 3)}, {}, false));
    assert IsRun([INITIAL], []);
    assert Started(INITIAL.m, m, 3) by {
      assert INITIAL.m.slots[0].None? && INITIAL.m.slots[1].None?;
      assert m.slots == INITIAL.m.slots[0 := Some(false)][1 := Some(true)];
    }
    s := ReachStep(INITIAL, CallDoCmd(m, 3));
    s := ReachStep(s, CallWaitpid(true));
    s := ReachStep(s, ParentStep(false));
  }

  /** The runner's whole life between two loads of the waiting scp. */
  lemma RunnerFinishes(s0: Sys, rc: int) returns (s: Sys)
    requires Reachable(s0) && s0.runner.Boot? && s0.parent.LoadAlive?
    ensures Reachable(s) && s.runner.Absent? && s.parent == s0.parent && s.result == Some(rc) && s.m.rec.done
  {
    hide Reachable;
    s := ReachStep(s0, RunnerStep(0));
    s := ReachStep(s, RunnerStep(rc));
    s := ReachStep(s, RunnerStep(0));
    s := ReachStep(s, RunnerStep(0));
    s := ReachStep(s, RunnerStep(0));
    s := ReachStep(s, RunnerStep(0));
  }

  /** From the give-up on, to the status waitpid() stores. */
  lemma FailureReported(s0: Sys) returns (s: Sys)
    requires Reachable(s0) && s0.runner.Absent? && s0.parent == Linger(ForWaitpid) && s0.m.rec.rc == RETURN_FAIL
    ensures Reachable(s) && s.result == s0.result && s.status == Some(WaitStatus(RETURN_FAIL))
  {
    hide Reachable, WaitStatus, Free;
    s := ReachStep(s0, ParentStep(false));
    s := ReachStep(s, ParentStep(false));
    s := ReachStep(s, ParentStep(false));
    s := ReachStep(s, ParentStep(false));
    s := ReachStep(s, ParentStep(false));
  }

  /** The failing case is real: ssh returns 0 and posts it, and waitpid() still reports the failure code. */
  lemma StatusLost()
    ensures exists s :: Reachable(s) && s.result == Some(0) && s.status == Some(20 * 0x100)
  {
    var s := PollMidway();
    s := RunnerFinishes(s, 0);
    hide Reachable;
    s := ReachStep(s, ParentStep(false));
    s := FailureReported(s);
  }
}
