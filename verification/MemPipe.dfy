/**
  The shared-memory pipe between scp and its ssh process (clients/dropbear/include/amiga_stdio.h):
  a ring with free-running 32-bit counters, and the waiting on either side of it.
 */
module MemPipe {
  import opened Words

  const SIZE := 32768

  // ---------------------------------------------------------------- positions

  /** The slot of byte number n, counted from the pipe's start; 32-bit counters wrap without moving it. */
  function Slot(n: nat): (i: nat)
    ensures i < SIZE
  {
    n % SIZE
  }

  function Ulong(n: int): (u: u32) { n % TWO32 }

  lemma CounterSlot(n: nat)
    ensures Ulong(n) % SIZE == Slot(n)
  {
    assert n == TWO32 * (n / TWO32) + n % TWO32;
    assert n == SIZE * (131072 * (n / TWO32)) + n % TWO32;
  }

  /** Subtracting wrapped counters gives the true distance while it fits. */
  lemma CounterGap(r: nat, w: nat)
    requires r <= w < r + TWO32
    ensures Ulong(Ulong(w) - Ulong(r)) == w - r
  {
    var p, q := r / TWO32, w / TWO32;
    assert w % TWO32 - r % TWO32 == (w - r) - TWO32 * (q - p);
  }

  lemma SlotNear(n: nat, i: nat)
    requires i < SIZE
    ensures Slot(n + i) == if Slot(n) + i < SIZE then Slot(n) + i else Slot(n) + i - SIZE
  {
  }

  lemma SlotsDiffer(a: nat, b: nat)
    requires a < b < a + SIZE
    ensures Slot(a) != Slot(b)
  {
    SlotNear(a, b - a);
  }

  // ---------------------------------------------------------------- the ring

  datatype Attempt = Done(bytes: seq<u8>) | Put(count: nat) | End | MustWait

  class Mempipe {
    const data: array<u8>
    var readPos: u32
    var writePos: u32
    var readerClosed: bool
    var writerClosed: bool
    var toReader: bool                // the reader's signal
    var toWriter: bool                // the writer's signal

    ghost var queue: seq<u8>          // written and not yet read
    ghost var before: nat             // how many were read before them

    ghost predicate Valid()
      reads this, data
    {
      && data.Length == SIZE && InRing(data[..], before, queue)
      && readPos == Ulong(before) && writePos == Ulong(before + |queue|)
    }

    /** The pipe as the two sides share it, for a reader and a writer that are where these say. */
    ghost function Now(reader: Side, writer: Side): Sys
      reads this
    {
      Sys(queue, readerClosed, writerClosed, reader, writer, toReader, toWriter)
    }

    /** One turn of amiga_mempipe_read under Forbid(): the oldest bytes, as many as there are and are asked for. */
    method TryRead(length: nat) returns (r: Attempt)
      requires Valid() && length > 0
      modifies this`readPos, this`queue, this`before, this`toWriter
      ensures Valid()
      ensures old(queue) != [] ==> r.Done? && r.bytes + queue == old(queue) && toWriter
      ensures old(queue) != [] ==> |r.bytes| == if |old(queue)| < length then |old(queue)| else length
      ensures old(queue) == [] ==>
        r == (if writerClosed then End else MustWait) && queue == [] && toWriter == old(toWriter)
      ensures forall w :: Now(if r.MustWait? then Waiting else Own, w) == Next(old(Now(Loop, w)), ReadTurn(length))
    {
      hide Ulong;
      CounterGap(before, before + |queue|);
      var used := Ulong(writePos - readPos);
      hide InRing;
      if used != 0 {
        var take := if used < length then used else length;
        var out := TakeFront(take);
        return Done(out);
      }
      return if writerClosed then End else MustWait;
    }

    method TakeFront(take: nat) returns (out: seq<u8>)
      requires Valid() && take <= |queue|
      modifies this`readPos, this`queue, this`before, this`toWriter
      ensures Valid() && out == old(queue)[..take] && queue == old(queue)[take..] && toWriter
    {
      FrontOfQueue(data[..], before, queue, take);
      WithoutFront(data[..], before, queue, take);
      assert take <= SIZE;
      hide InRing, Slot, Front, Ulong;
      CounterSlot(before);
      out := CopyOut(readPos % SIZE, take);
      Advance(before, take);
      readPos := Ulong(readPos + take);
      queue, before := queue[take..], before + take;
      toWriter := true;
    }

    /** The two CopyMem() calls out of the ring. */
    method CopyOut(at: nat, take: nat) returns (out: seq<u8>)
      requires data.Length == SIZE && at < SIZE && take <= SIZE
      ensures out == Front(data[..], at, take)
    {
      var first := SIZE - at;
      if first > take {
        first := take;
      }
      out := data[at..at + first];
      if take != first {
        out := out + data[..take - first];
      }
    }

    /** One turn of amiga_mempipe_write under Forbid(): what there is room for joins the end. */
    method TryWrite(input: seq<u8>) returns (r: Attempt)
      requires Valid() && input != []
      modifies this`writePos, this`queue, this`toReader, data
      ensures Valid()
      ensures readerClosed ==> r == End && queue == old(queue) && toReader == old(toReader)
      ensures !readerClosed && |old(queue)| == 32768 ==>
        r == MustWait && queue == old(queue) && toReader == old(toReader)
      ensures !readerClosed && |old(queue)| < 32768 ==>
        && r.Put? && r.count == (if 32768 - |old(queue)| < |input| then 32768 - |old(queue)| else |input|)
        && queue == old(queue) + input[..r.count] && toReader
      ensures forall p :: Now(p, if r.MustWait? then Waiting else Own) == Next(old(Now(p, Loop)), WriteTurn(input))
    {
      if readerClosed {
        return End;
      }
      hide Ulong;
      CounterGap(before, before + |queue|);
      var used := Ulong(writePos - readPos);
      var room := SIZE - used;
      hide Slot;
      if room != 0 {
        var put := if room < |input| then room else |input|;
        CounterSlot(before + |queue|);
        Store(writePos % SIZE, input[..put]);
        hide InRing;
        Advance(before + |queue|, put);
        writePos := Ulong(writePos + put);
        queue := queue + input[..put];
        toReader := true;
        return Put(put);
      }
      return MustWait;
    }

    method EndReading()
      modifies this`readerClosed, this`toWriter
      ensures forall w :: Now(Own, w) == Next(old(Now(Own, w)), CloseReader)
    {
      readerClosed, toWriter := true, true;
    }

    method EndWriting()
      modifies this`writerClosed, this`toReader
      ensures forall p :: Now(p, Own) == Next(old(Now(p, Own)), CloseWriter)
    {
      writerClosed, toReader := true, true;
    }

    /** The two CopyMem() calls: bytes laid into the ring behind the queue join it. */
    method Store(at: nat, b: seq<u8>)
      requires data.Length == SIZE && InRing(data[..], before, queue) && at == Slot(before + |queue|)
      requires |queue| + |b| <= SIZE
      modifies data
      ensures InRing(data[..], before, queue + b)
    {
      var first := SIZE - at;
      if first > |b| {
        first := |b|;
      }
      forall k | 0 <= k < first {
        data[at + k] := b[k];
      }
      forall k | 0 <= k < |b| - first {
        data[k] := b[first + k];
      }
      assert Stored(old(data[..]), data[..], at, b);
      Joined(old(data[..]), data[..], before, queue, b);
    }
  }

  /** The queued bytes lie in their slots. */
  ghost predicate InRing(d: seq<u8>, before: nat, queue: seq<u8>) {
    |d| == SIZE && |queue| <= SIZE && forall i :: 0 <= i < |queue| ==> d[Slot(before + i)] == queue[i]
  }

  /** What two CopyMem() calls from a slot on give. */
  function Front(d: seq<u8>, at: nat, take: nat): (b: seq<u8>)
    requires |d| == SIZE && at < SIZE && take <= SIZE
  {
    var first := if SIZE - at > take then take else SIZE - at;
    d[at..at + first] + d[..take - first]
  }

  lemma FrontOfQueue(d: seq<u8>, before: nat, queue: seq<u8>, take: nat)
    requires InRing(d, before, queue) && take <= |queue|
    ensures Front(d, Slot(before), take) == queue[..take]
  {
    var out := Front(d, Slot(before), take);
    forall i | 0 <= i < take ensures out[i] == queue[i] {
      SlotNear(before, i);
      assert d[Slot(before + i)] == queue[i];
    }
  }

  lemma WithoutFront(d: seq<u8>, before: nat, queue: seq<u8>, take: nat)
    requires InRing(d, before, queue) && take <= |queue|
    ensures InRing(d, before + take, queue[take..])
  {
    forall i | 0 <= i < |queue| - take ensures d[Slot(before + take + i)] == queue[take..][i] {
      assert d[Slot(before + (take + i))] == queue[take + i];
    }
  }

  /** The bytes `b` laid over `d` from `at` on, around the end. */
  ghost predicate Stored(d: seq<u8>, e: seq<u8>, at: nat, b: seq<u8>)
    requires |d| == SIZE && |e| == SIZE && at < SIZE && |b| <= SIZE
  {
    && (forall k :: 0 <= k < SIZE ==>
          e[k] == if at <= k < at + |b| then b[k - at] else if k < at + |b| - SIZE then b[k + SIZE - at] else d[k])
  }

  lemma Joined(d: seq<u8>, e: seq<u8>, before: nat, queue: seq<u8>, b: seq<u8>)
    requires InRing(d, before, queue) && |e| == SIZE && |queue| + |b| <= SIZE && Stored(d, e, Slot(before + |queue|), b)
    ensures InRing(e, before, queue + b)
  {
    forall i | 0 <= i < |queue + b| ensures e[Slot(before + i)] == (queue + b)[i] {
      if i < |queue| {
        Untouched(before, |queue|, |b|, i);
        assert d[Slot(before + i)] == queue[i];
      } else {
        SlotNear(before + |queue|, i - |queue|);
      }
    }
  }

  lemma Advance(n: nat, k: nat)
    ensures Ulong(Ulong(n) + k) == Ulong(n + k)
  {
    assert n == TWO32 * (n / TWO32) + n % TWO32;
  }

  /** A queued byte's slot is not one the next bytes go to. */
  lemma Untouched(before: nat, used: nat, put: nat, i: nat)
    requires i < used && used + put <= SIZE
    ensures var at, s := Slot(before + used), Slot(before + i);
      !(at <= s < at + put) && !(at + put > SIZE && s < at + put - SIZE)
  {
    if put > 0 {
      SlotNear(before + i, used - i);
      SlotNear(before + i, used - i + put - 1);
    }
  }

  // ---------------------------------------------------------------- the two sides

  /** A side is in its own code, at the top of its loop, or between Permit() and the end of its Wait(). */
  datatype Side = Own | Loop | Waiting

  datatype Sys = Sys(queue: seq<u8>, readerClosed: bool, writerClosed: bool, reader: Side, writer: Side,
                     toReader: bool, toWriter: bool)

  datatype Event =
    | StartRead | ReadTurn(length: nat) | ReaderWakes(brk: bool) | CloseReader
    | StartWrite | WriteTurn(input: seq<u8>) | WriterWakes(brk: bool) | CloseWriter

  function Least(a: nat, b: nat): (m: nat) { if a < b then a else b }

  predicate Enabled(s: Sys, e: Event) {
    match e
    case StartRead => s.reader.Own?
    case ReadTurn(length) => s.reader.Loop? && length > 0
    case ReaderWakes(brk) => s.reader.Waiting? && (s.toReader || brk)
    case CloseReader => s.reader.Own?
    case StartWrite => s.writer.Own?
    case WriteTurn(input) => s.writer.Loop? && input != [] && |s.queue| <= SIZE
    case WriterWakes(brk) => s.writer.Waiting? && (s.toWriter || brk)
    case CloseWriter => s.writer.Own?
  }

  function Next(s: Sys, e: Event): (t: Sys)
    requires Enabled(s, e)
  {
    match e
    case StartRead => s.(reader := Loop)
    case ReadTurn(length) =>
      if s.queue != [] then s.(queue := s.queue[Least(length, |s.queue|)..], toWriter := true, reader := Own)
      else s.(reader := if s.writerClosed then Own else Waiting)
    case ReaderWakes(brk) => s.(toReader := false, reader := if brk then Own else Loop)
    case CloseReader => s.(readerClosed := true, toWriter := true)
    case StartWrite => s.(writer := Loop)
    case WriteTurn(input) =>
      if s.readerClosed then s.(writer := Own)
      else if |s.queue| < SIZE then
        s.(queue := s.queue + input[..Least(|input|, SIZE - |s.queue|)], toReader := true, writer := Own)
      else s.(writer := Waiting)
    case WriterWakes(brk) => s.(toWriter := false, writer := if brk then Own else Loop)
    case CloseWriter => s.(writerClosed := true, toReader := true)
  }

  ghost const INITIAL := Sys([], false, false, Own, Own, false, false)

  /** A side that waits has something to wait for, or its signal is on the way to it already. */
  predicate Inv(s: Sys) {
    && |s.queue| <= SIZE
    && (s.reader.Waiting? && (s.queue != [] || s.writerClosed) ==> s.toReader)
    && (s.writer.Waiting? && (|s.queue| < SIZE || s.readerClosed) ==> s.toWriter)
  }

  lemma StepKeeps(s: Sys, e: Event)
    requires Inv(s) && Enabled(s, e)
    ensures Inv(Next(s, e))
  {
  }

  ghost predicate IsRun(run: seq<Sys>, events: seq<Event>) {
    && |run| == |events| + 1 && run[0] == INITIAL
    && forall i :: 0 <= i < |events| ==> Enabled(run[i], events[i]) && run[i + 1] == Next(run[i], events[i])
  }

  /**
    No wakeup is lost: in every state of every run a side that waits although it could go on has
    its signal pending, so it can wake; and the two sides never both wait with nothing pending.
   */
  lemma {:induction false} NoLostWakeup(run: seq<Sys>, events: seq<Event>, i: nat)
    requires IsRun(run, events) && i < |run|
    ensures Inv(run[i])
    ensures run[i].reader.Waiting? && (run[i].queue != [] || run[i].writerClosed) ==>
      Enabled(run[i], ReaderWakes(false))
    ensures run[i].writer.Waiting? && (|run[i].queue| < 32768 || run[i].readerClosed) ==>
      Enabled(run[i], WriterWakes(false))
    ensures run[i].reader.Waiting? && run[i].writer.Waiting? ==> run[i].toReader || run[i].toWriter
  {
    if i > 0 {
      NoLostWakeup(run, events, i - 1);
      StepKeeps(run[i - 1], events[i - 1]);
      hide Next;
    }
  }

  /** The bytes a step hands to the reader, and those it takes from the writer. */
  function Handed(s: Sys, e: Event): (b: seq<u8>) { if e.ReadTurn? then s.queue[..Least(e.length, |s.queue|)] else [] }

  function TakenIn(s: Sys, e: Event): (b: seq<u8>) {
    if e.WriteTurn? && !s.readerClosed && |s.queue| < SIZE then e.input[..Least(|e.input|, SIZE - |s.queue|)] else []
  }

  ghost function AllHanded(run: seq<Sys>, events: seq<Event>, n: nat): (b: seq<u8>)
    requires n <= |events| <= |run|
  {
    if n == 0 then [] else AllHanded(run, events, n - 1) + Handed(run[n - 1], events[n - 1])
  }

  ghost function AllTakenIn(run: seq<Sys>, events: seq<Event>, n: nat): (b: seq<u8>)
    requires n <= |events| <= |run|
  {
    if n == 0 then [] else AllTakenIn(run, events, n - 1) + TakenIn(run[n - 1], events[n - 1])
  }

  lemma StepConserves(s: Sys, e: Event)
    requires Enabled(s, e)
    ensures Handed(s, e) + Next(s, e).queue == s.queue + TakenIn(s, e)
  {
    if e.ReadTurn? {
      var n := Least(e.length, |s.queue|);
      assert s.queue == s.queue[..n] + s.queue[n..];
    }
  }

  /** Over any run the reader gets the writer's bytes, in order and each once, but for those still on the way. */
  lemma {:induction false} RunConserves(run: seq<Sys>, events: seq<Event>, n: nat)
    requires IsRun(run, events) && n <= |events|
    ensures AllHanded(run, events, n) + run[n].queue == AllTakenIn(run, events, n)
    decreases n
  {
    if n > 0 {
      RunConserves(run, events, n - 1);
      var s, e := run[n - 1], events[n - 1];
      StepConserves(s, e);
      assert run[n].queue == Next(s, e).queue;
      hide Next, Handed, TakenIn;
      Onward(AllHanded(run, events, n - 1), Handed(s, e), run[n].queue, s.queue, TakenIn(s, e));
    }
  }

  lemma Onward(h: seq<u8>, x: seq<u8>, q': seq<u8>, q: seq<u8>, y: seq<u8>)
    requires x + q' == q + y
    ensures (h + x) + q' == (h + q) + y
  {
    assert (h + x) + q' == h + (x + q') && (h + q) + y == h + (q + y);
  }

  // ---------------------------------------------------------------- two pipes, one signal bit per task

  /**
    scp and its ssh process: scp writes `down` and reads `up`, ssh the other way round.  Each
    task has one signal bit for both pipes, so the two views of it agree.
   */
  datatype Duplex = Duplex(down: Sys, up: Sys)

  datatype DuplexEvent = OnDown(e: Event) | OnUp(e: Event) | Stray(toScp: bool)   // any other Signal() of that bit

  /** The side of an event's task on the other pipe. */
  function OtherSide(e: Event, other: Sys): (s: Side) {
    if e.StartRead? || e.ReadTurn? || e.ReaderWakes? || e.CloseReader? then other.writer else other.reader
  }

  /** A task is one thread: it works on a pipe only while it is in its own code as to the other. */
  predicate DuplexEnabled(d: Duplex, e: DuplexEvent) {
    match e
    case OnDown(f) => Enabled(d.down, f) && OtherSide(f, d.up).Own?
    case OnUp(f) => Enabled(d.up, f) && OtherSide(f, d.down).Own?
    case Stray(_) => true
  }

  /** The other pipe sees the same two bits, from the other end. */
  function SameBits(t: Sys, other: Sys): (r: Sys) { other.(toReader := t.toWriter, toWriter := t.toReader) }

  function DuplexNext(d: Duplex, e: DuplexEvent): (t: Duplex)
    requires DuplexEnabled(d, e)
  {
    match e
    case OnDown(f) => var t := Next(d.down, f); Duplex(t, SameBits(t, d.up))
    case OnUp(f) => var t := Next(d.up, f); Duplex(SameBits(t, d.down), t)
    case Stray(toScp) =>
      if toScp then Duplex(d.down.(toWriter := true), d.up.(toReader := true))
      else Duplex(d.down.(toReader := true), d.up.(toWriter := true))
  }

  predicate DuplexInv(d: Duplex) {
    && Inv(d.down) && Inv(d.up)
    && d.down.toWriter == d.up.toReader && d.down.toReader == d.up.toWriter
    && (d.down.writer.Own? || d.up.reader.Own?) && (d.down.reader.Own? || d.up.writer.Own?)
  }

  lemma DuplexKeeps(d: Duplex, e: DuplexEvent)
    requires DuplexInv(d) && DuplexEnabled(d, e)
    ensures DuplexInv(DuplexNext(d, e))
  {
    match e
    case OnDown(f) => StepKeeps(d.down, f);
    case OnUp(f) => StepKeeps(d.up, f);
    case Stray(_) =>
  }

  ghost predicate IsDuplexRun(run: seq<Duplex>, events: seq<DuplexEvent>) {
    && |run| == |events| + 1 && run[0] == Duplex(INITIAL, INITIAL)
    && forall i :: 0 <= i < |events| ==>
         DuplexEnabled(run[i], events[i]) && run[i + 1] == DuplexNext(run[i], events[i])
  }

  /** A wait that could end has its signal pending, although the other pipe's waits take the same bit. */
  predicate Wakeable(s: Sys) {
    && (s.reader.Waiting? && (s.queue != [] || s.writerClosed) ==> s.toReader)
    && (s.writer.Waiting? && (|s.queue| < SIZE || s.readerClosed) ==> s.toWriter)
  }

  /**
    No wakeup is lost between the two pipes: in every state of every run a wait that could end
    can, and the two sides of a pipe never both wait with nothing pending.
   */
  lemma {:induction false} DuplexNoLostWakeup(run: seq<Duplex>, events: seq<DuplexEvent>, i: nat)
    requires IsDuplexRun(run, events) && i < |run|
    ensures DuplexInv(run[i]) && Wakeable(run[i].down) && Wakeable(run[i].up)
    ensures run[i].down.reader.Waiting? && run[i].down.writer.Waiting? ==> run[i].down.toReader || run[i].down.toWriter
    ensures run[i].up.reader.Waiting? && run[i].up.writer.Waiting? ==> run[i].up.toReader || run[i].up.toWriter
  {
    if i > 0 {
      DuplexNoLostWakeup(run, events, i - 1);
      DuplexKeeps(run[i - 1], events[i - 1]);
      hide DuplexNext;
    }
  }

  /** What is left is the two programs' own: each waits for the other's data, or each for room. */
  lemma DuplexStuck(d: Duplex)
    requires DuplexInv(d) && !d.down.toReader && !d.down.toWriter
    requires d.down.reader.Waiting? || d.up.writer.Waiting?
    requires d.down.writer.Waiting? || d.up.reader.Waiting?
    ensures || (d.down.reader.Waiting? && d.up.reader.Waiting? && d.down.queue == [] && d.up.queue == []
                && !d.down.writerClosed && !d.up.writerClosed)
            || (d.down.writer.Waiting? && d.up.writer.Waiting? && |d.down.queue| == 32768 && |d.up.queue| == 32768
                && !d.down.readerClosed && !d.up.readerClosed)
  {
  }
}
