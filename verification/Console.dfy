/**
  The interactive console reader of clients/dropbear/amiga_dropbear.c: a child process fills a
  ring of 256 bytes and signals, the parent drains it, waits and stops the child.  Two Exec
  tasks interleave at every load and store of the shared record.
 */
module Console {
  import opened Words
  import opened TextConv

  const RING: nat := 256          // CON_RING_SIZE
  type Slot = i: nat | i < RING

  const CSI: u8 := 0x9B

  /** Where the child is; `b` is being put into the ring, `rest` is what follows it for the same key. */
  datatype Child =
    | Off                                    // not running, or past its last Signal
    | Start | Top | Resize | Await | ReadKey
    | Put(todo: seq<u8>)                     // about to load cr_Head
    | PutCompare(b: u8, rest: seq<u8>, head: Slot)   // about to load cr_Tail
    | PutStore(b: u8, rest: seq<u8>, head: Slot)     // about to store the byte
    | PutPublish(b: u8, rest: seq<u8>, head: Slot)   // about to store cr_Head
    | Tell                                   // about to Signal the data
    | Leaving                                // about to Signal that it has stopped

  /** Where the parent is; `left` is how many bytes a read may still take after the one in hand. */
  datatype Parent =
    | Run
    | CheckRing | CheckEof | Poll | Blocked            // select()
    | ReadCompare(left: nat) | ReadLoad(left: nat) | ReadStore(left: nat, b: u8)   // con_read()
    | Stopping                                         // con_reader_stop(), waiting

  /** The ring, with its history since it was made. */
  datatype Ring = Ring(
    head: Slot, tail: Slot, buf: seq<u8>,
    accepted: seq<u8>,           // every byte it has taken
    consumed: seq<u8>,           // every byte read out of it
    offered: seq<u8>,            // every byte put,
    took: seq<bool>)             // and which of them it took

  datatype Sys = Sys(
    alloc: bool,                                // the ConReader record exists
    ring: Ring, quit: bool, eof: bool,
    data: bool, done: bool, ctrlC: bool,        // signals pending at the parent
    intr: bool,                                 // con_intr
    keys: seq<u8>,                              // every key the reader has read
    handed: seq<Handed>,                        // every byte con_read() has given out
    child: Child, parent: Parent)

  /** A byte given out: a Ctrl-C from this side, which is 0x03, or one from the ring. */
  datatype Handed = Interrupt | Typed(b: u8)

  /** Everything that can happen next, with what the outside decides. */
  datatype Event =
    | ChildStep(flag: bool, key: Option<u8>)   // resized? a key within the poll? which key, None at end of file
    | StartReader | StopReader | Select | Read(len: nat)
    | ParentStep(other: bool)                  // `other`: a socket or the timeout ends the wait
    | Break                                    // a Ctrl-C arrives

  /** What one key becomes: CSI as ESC [, a high byte as UTF-8 when a codeset is in use. */
  function Keys(cs: Option<Codeset>, k: u8): (r: seq<u8>)
    ensures 1 <= |r| <= 3
  {
    if k == CSI then [0x1B, 0x5B]
    else if k >= 0x80 && cs.Some? then LocalToUtf8(cs.value, k)
    else [k]
  }

  predicate Enabled(s: Sys, e: Event) {
    match e
    case ChildStep(_, _) => !s.child.Off?
    case StartReader => s.parent.Run? && !s.alloc
    case StopReader => s.parent.Run? && s.alloc
    case Select => s.parent.Run? && s.alloc
    case Read(_) => s.parent.Run? && s.alloc
    case ParentStep(other) =>
      !s.parent.Run? && (s.parent.Stopping? ==> s.done) && (s.parent.Blocked? ==> s.data || s.ctrlC || other)
    case Break => true
  }

  function NextIndex(i: nat): (r: Slot) { (i + 1) % RING }      // (i + 1) & (CON_RING_SIZE - 1)

  function Refuse(r: Ring, b: u8): (t: Ring) { r.(offered := r.offered + [b], took := r.took + [false]) }

  function Publish(r: Ring, h: Slot, b: u8): (t: Ring) {
    r.(head := NextIndex(h), accepted := r.accepted + [b], offered := r.offered + [b], took := r.took + [true])
  }

  function Take(r: Ring, b: u8): (t: Ring) {
    r.(tail := NextIndex(r.tail), consumed := r.consumed + [b])
  }

  /** Where the child goes next: con_child and con_ring_put, one load or store at a time. */
  function ChildPc(cs: Option<Codeset>, s: Sys, flag: bool, key: Option<u8>): (c: Child) {
    match s.child
    case Off => Off
    case Start => Top
    case Top => if s.quit then Leaving else Resize
    case Resize => Await
    case Await => if flag then ReadKey else Top
    case ReadKey => if key.None? then Tell else Put(Keys(cs, key.value))
    case Put(todo) => if todo == [] then Tell else PutCompare(todo[0], todo[1..], s.ring.head)
    case PutCompare(b, rest, h) => if NextIndex(h) == s.ring.tail then Put(rest) else PutStore(b, rest, h)
    case PutStore(b, rest, h) => PutPublish(b, rest, h)
    case PutPublish(_, rest, _) => Put(rest)
    case Tell => if s.eof then Leaving else Top
    case Leaving => Off
  }

  /** What a child step stores into the ring. */
  function ChildStores(s: Sys): (r: Ring)
    requires |s.ring.buf| == RING
  {
    match s.child
    case PutCompare(b, _, h) => if NextIndex(h) == s.ring.tail then Refuse(s.ring, b) else s.ring
    case PutStore(b, _, h) => s.ring.(buf := s.ring.buf[h := b])
    case PutPublish(b, _, h) => Publish(s.ring, h, b)
    case _ => s.ring
  }

  function ChildNext(cs: Option<Codeset>, s: Sys, flag: bool, key: Option<u8>): (t: Sys)
    requires |s.ring.buf| == RING
  {
    s.(child := ChildPc(cs, s, flag, key),
       ring := ChildStores(s),
       keys := if s.child.ReadKey? && key.Some? then s.keys + [key.value] else s.keys,
       eof := s.eof || (s.child.ReadKey? && key.None?),
       data := s.data || s.child.Tell? || (s.child.Resize? && flag),
       done := s.done || s.child.Leaving?)
  }

  /** Where the parent goes next: select(), con_read() and con_reader_stop(), one load or store at a time. */
  function ParentPc(s: Sys): (p: Parent)
    requires |s.ring.buf| == RING
  {
    match s.parent
    case Run => Run
    case CheckRing => if s.intr || s.ring.tail != s.ring.head then Poll else CheckEof
    case CheckEof => if s.eof then Poll else Blocked
    case Poll => Run
    case Blocked => Run
    case ReadCompare(left) => if left > 0 && s.ring.tail != s.ring.head then ReadLoad(left - 1) else Run
    case ReadLoad(left) => ReadStore(left, s.ring.buf[s.ring.tail])
    case ReadStore(left, b) => ReadCompare(left)
    case Stopping => Run
  }

  /** WaitSelect() or Wait() returns here, and takes the signals; with no socket in the set a ready console skips it. */
  predicate Wakes(s: Sys, other: bool) { s.parent.Blocked? || (s.parent.Poll? && !other) }

  function ParentNext(s: Sys, other: bool): (t: Sys)
    requires |s.ring.buf| == RING
  {
    s.(parent := ParentPc(s),
       ring := if s.parent.ReadStore? then Take(s.ring, s.parent.b) else s.ring,
       handed := if s.parent.ReadStore? then s.handed + [Typed(s.parent.b)] else s.handed,
       data := s.data && !Wakes(s, other),
       ctrlC := s.ctrlC && !Wakes(s, other),
       intr := s.intr || (s.ctrlC && Wakes(s, other)),
       done := s.done && !s.parent.Stopping?,
       alloc := s.alloc && !s.parent.Stopping?)
  }

  function EmptyRing(): (r: Ring)
    ensures |r.buf| == RING
  {
    Ring(0, 0, seq(RING, _ => 0), [], [], [], [])
  }

  function Apply(cs: Option<Codeset>, s: Sys, e: Event): (t: Sys)
    requires |s.ring.buf| == RING
  {
    match e
    case ChildStep(flag, key) => ChildNext(cs, s, flag, key)
    case StartReader =>
      s.(alloc := true, ring := EmptyRing(), quit := false, eof := false, data := false, done := false,
         keys := [], handed := [], child := Start)
    case StopReader => s.(quit := true, parent := Stopping)
    case Select => s.(parent := CheckRing)
    case Read(len) => s.(intr := if len > 0 then false else s.intr,
                         handed := if s.intr && len > 0 then s.handed + [Interrupt] else s.handed,
                         parent := ReadCompare(if s.intr && len > 0 then len - 1 else len))
    case ParentStep(other) => ParentNext(s, other)
    case Break => s.(ctrlC := true)
  }

  ghost const INITIAL := Sys(false, EmptyRing(), false, false, false, false, false, false, [], [], Off, Run)

  // ---------------------------------------------------------------- what always holds

  /** Head and tail are the two counts modulo the ring, and the unread bytes are in their slots. */
  ghost predicate RingOk(r: Ring) {
    && |r.buf| == RING
    && r.head == |r.accepted| % RING && r.tail == |r.consumed| % RING
    && |r.consumed| <= |r.accepted| < |r.consumed| + RING
    && r.consumed <= r.accepted
    && (forall j :: |r.consumed| <= j < |r.accepted| ==> r.buf[j % RING] == r.accepted[j])
  }

  /** The elements marked true, in order. */
  function Marked<T>(s: seq<T>, marks: seq<bool>): (r: seq<T>)
    requires |s| == |marks|
  {
    if s == [] then []
    else
      var n := |s| - 1;
      Marked(s[..n], marks[..n]) + if marks[n] then [s[n]] else []
  }

  /** What the keys read come to, byte by byte. */
  function Meant(cs: Option<Codeset>, keys: seq<u8>): (r: seq<u8>) {
    if keys == [] then [] else Meant(cs, keys[..|keys| - 1]) + Keys(cs, keys[|keys| - 1])
  }

  /** The bytes of a key that are still to be put. */
  function InHand(c: Child): (r: seq<u8>) {
    match c
    case Put(todo) => todo
    case PutCompare(b, rest, _) => [b] + rest
    case PutStore(b, rest, _) => [b] + rest
    case PutPublish(b, rest, _) => [b] + rest
    case _ => []
  }

  /** The bytes that came out of the ring. */
  function FromRing(hs: seq<Handed>): (r: seq<u8>) {
    if hs == [] then []
    else FromRing(hs[..|hs| - 1]) + if hs[|hs| - 1].Typed? then [hs[|hs| - 1].b] else []
  }

  /** Every byte of every key is put, in order; the ring took exactly the marked ones; what came out was given out. */
  ghost predicate HistoryOk(cs: Option<Codeset>, s: Sys) {
    && s.ring.offered + InHand(s.child) == Meant(cs, s.keys)
    && |s.ring.took| == |s.ring.offered| && s.ring.accepted == Marked(s.ring.offered, s.ring.took)
    && s.ring.consumed == FromRing(s.handed)
  }

  predicate Room(r: Ring) { |r.accepted| - |r.consumed| < RING - 1 }

  predicate Unread(r: Ring) { |r.consumed| < |r.accepted| }

  /** A put in progress works on the slot at the head, and once past the compare there is room for it. */
  ghost predicate ChildOk(s: Sys) {
    match s.child
    case PutCompare(_, _, h) => h == s.ring.head
    case PutStore(_, _, h) => h == s.ring.head && Room(s.ring)
    case PutPublish(b, _, h) => h == s.ring.head && Room(s.ring) && |s.ring.buf| == RING && s.ring.buf[h] == b
    case _ => true
  }

  /** A read in progress is of a byte that is there, and of the oldest one. */
  ghost predicate ParentOk(s: Sys) {
    match s.parent
    case ReadLoad(_) => Unread(s.ring)
    case ReadStore(_, b) => Unread(s.ring) && b == s.ring.accepted[|s.ring.consumed|]
    case _ => true
  }

  /** The record lives as long as anyone may touch it; the done signal stands for a child that will not. */
  ghost predicate LifeOk(s: Sys) {
    && (!s.child.Off? ==> s.alloc && !s.done)
    && (s.alloc && s.child.Off? ==> s.done)
    && (s.done ==> s.alloc)
    && (!s.parent.Run? ==> s.alloc)
    && (s.parent.Stopping? ==> s.quit)
    && (s.quit && s.alloc ==> s.parent.Stopping?)
  }

  /** The child is on its way to a Signal of the data. */
  predicate WillTell(c: Child) {
    c.Put? || c.PutCompare? || c.PutStore? || c.PutPublish? || c.Tell?
  }

  predicate Readable(s: Sys) { s.intr || s.ring.tail != s.ring.head || s.eof }

  /** No lost wakeup: what became readable after the check has been, or will be, signalled. */
  ghost predicate WakeOk(s: Sys) {
    && (s.parent.CheckEof? && s.ring.tail != s.ring.head ==> s.data || WillTell(s.child))
    && (s.parent.Blocked? && (s.ring.tail != s.ring.head || s.eof) ==> s.data || WillTell(s.child))
    && (s.parent.CheckEof? || s.parent.Blocked? ==> !s.intr)
  }

  ghost predicate Inv(s: Sys) {
    RingOk(s.ring) && ChildOk(s) && ParentOk(s) && LifeOk(s) && WakeOk(s)
  }

  lemma NextMod(n: nat)
    ensures NextIndex(n % RING) == (n + 1) % RING
  {
  }

  /** Two counts less than a ring apart name the same slot only when they are equal. */
  lemma SlotsDiffer(a: nat, b: nat)
    requires a <= b < a + RING
    ensures a % RING == b % RING <==> a == b
  {
  }

  lemma SlotsMeet(c: nat, n: nat)
    requires c < n <= c + RING
    ensures n % RING == c % RING <==> n == c + RING
  {
    if n < c + RING { SlotsDiffer(c, n); }
  }

  /** Filling the free slot at the head disturbs no unread byte. */
  lemma StoreKeepsRing(r: Ring, b: u8)
    requires RingOk(r) && Room(r)
    ensures RingOk(r.(buf := r.buf[r.head := b]))
  {
    forall j | |r.consumed| <= j < |r.accepted| ensures r.buf[r.head := b][j % RING] == r.accepted[j] {
      SlotsDiffer(j, |r.accepted|);
    }
  }

  lemma PublishKeepsRing(r: Ring, b: u8)
    requires RingOk(r) && Room(r) && r.buf[r.head] == b
    ensures RingOk(Publish(r, r.head, b))
  {
    NextMod(|r.accepted|);
  }

  lemma TakeKeepsRing(r: Ring, b: u8)
    requires RingOk(r) && Unread(r) && b == r.accepted[|r.consumed|]
    ensures RingOk(Take(r, b))
  {
    NextMod(|r.consumed|);
  }

  /** The oldest unread byte is the one in the tail's slot. */
  lemma OldestAtTail(r: Ring)
    requires RingOk(r) && Unread(r)
    ensures r.buf[r.tail] == r.accepted[|r.consumed|]
  {
  }

  /** Head and tail differ exactly when something is unread. */
  lemma UnreadIffDiffer(r: Ring)
    requires RingOk(r)
    ensures r.tail != r.head <==> Unread(r)
  {
    SlotsDiffer(|r.consumed|, |r.accepted|);
  }

  /** The compare refuses a byte exactly when 255 are unread. */
  lemma FullIffCompare(r: Ring)
    requires RingOk(r)
    ensures NextIndex(r.head) == r.tail <==> !Room(r)
  {
    var c, n := |r.consumed|, |r.accepted| + 1;
    NextMod(|r.accepted|);
    assert NextIndex(r.head) == n % RING && r.tail == c % RING && c < n <= c + RING;
    hide RingOk, NextIndex;
    SlotsMeet(c, n);
  }

  /** A child step keeps the ring in order. */
  lemma ChildKeepsRing(s: Sys)
    requires RingOk(s.ring) && ChildOk(s)
    ensures RingOk(ChildStores(s))
  {
    assert |s.ring.buf| == RING;
    hide RingOk, NextIndex;
    if s.child.PutCompare? {
      RefuseKeepsRing(s.ring, s.child.b);
    } else if s.child.PutStore? {
      StoreKeepsRing(s.ring, s.child.b);
    } else if s.child.PutPublish? {
      PublishKeepsRing(s.ring, s.child.b);
    }
  }

  /** Past the compare there is room; past the store the byte is in its slot. */
  lemma ChildKeepsOk(cs: Option<Codeset>, s: Sys, flag: bool, key: Option<u8>)
    requires RingOk(s.ring) && ChildOk(s)
    ensures ChildOk(ChildNext(cs, s, flag, key))
  {
    FullIffCompare(s.ring);
    hide RingOk, NextIndex, Keys, Room;
  }

  /** A child step never moves the tail, and moves the head only on its way to a signal. */
  lemma ChildFrame(cs: Option<Codeset>, s: Sys, flag: bool, key: Option<u8>)
    requires RingOk(s.ring) && ChildOk(s)
    ensures var t := ChildNext(cs, s, flag, key);
      && t.ring.consumed == s.ring.consumed && t.ring.tail == s.ring.tail && s.ring.accepted <= t.ring.accepted
      && (t.ring.head != s.ring.head ==> WillTell(t.child))
  {
    assert |s.ring.buf| == RING;
    hide RingOk, ChildOk, NextIndex, Keys;
  }

  lemma RefuseKeepsRing(r: Ring, b: u8)
    requires RingOk(r)
    ensures RingOk(Refuse(r, b))
  {
  }

  lemma ChildLife(cs: Option<Codeset>, s: Sys, flag: bool, key: Option<u8>)
    requires |s.ring.buf| == RING && LifeOk(s) && !s.child.Off?
    ensures var t := ChildNext(cs, s, flag, key); LifeOk(t) && t.parent == s.parent
  {
    hide Keys, Publish, Refuse;
  }

  lemma ChildWake(cs: Option<Codeset>, s: Sys, flag: bool, key: Option<u8>)
    requires RingOk(s.ring) && ChildOk(s) && WakeOk(s) && !s.child.Off?
    ensures WakeOk(ChildNext(cs, s, flag, key))
  {
    ChildFrame(cs, s, flag, key);
    assert |s.ring.buf| == RING;
    hide RingOk, ChildOk, Keys, Publish, Refuse;
  }

  lemma ChildKeeps(cs: Option<Codeset>, s: Sys, flag: bool, key: Option<u8>)
    requires Inv(s) && !s.child.Off?
    ensures Inv(ChildNext(cs, s, flag, key))
  {
    ChildKeepsRing(s);
    ChildKeepsOk(cs, s, flag, key);
    ChildFrame(cs, s, flag, key);
    ChildLife(cs, s, flag, key);
    ChildWake(cs, s, flag, key);
    hide RingOk, ChildOk, LifeOk, WakeOk, ChildPc, ChildStores;
  }

  lemma ParentRing(s: Sys, other: bool)
    requires RingOk(s.ring) && ChildOk(s) && ParentOk(s)
    ensures var t := ParentNext(s, other); RingOk(t.ring) && ChildOk(t) && ParentOk(t)
  {
    assert |s.ring.buf| == RING;
    hide RingOk;
    match s.parent
    case ReadCompare(_) => UnreadIffDiffer(s.ring);
    case ReadLoad(_) => OldestAtTail(s.ring);
    case ReadStore(_, b) => TakeKeepsRing(s.ring, b);
    case _ =>
  }

  lemma ParentLife(s: Sys, other: bool)
    requires |s.ring.buf| == RING && LifeOk(s) && Enabled(s, ParentStep(other))
    ensures LifeOk(ParentNext(s, other))
  {
    hide Take;
  }

  lemma ParentWake(s: Sys, other: bool)
    requires |s.ring.buf| == RING && WakeOk(s) && Enabled(s, ParentStep(other))
    ensures WakeOk(ParentNext(s, other))
  {
    hide Take;
  }

  lemma ParentKeeps(s: Sys, other: bool)
    requires Inv(s) && Enabled(s, ParentStep(other))
    ensures Inv(ParentNext(s, other))
  {
    ParentRing(s, other);
    ParentLife(s, other);
    ParentWake(s, other);
    hide RingOk, ChildOk, ParentOk, LifeOk, WakeOk, ParentNext;
  }

  /** Every step of either task, and everything from outside, keeps the invariant. */
  lemma StepKeeps(cs: Option<Codeset>, s: Sys, e: Event)
    requires Inv(s) && Enabled(s, e)
    ensures Inv(Apply(cs, s, e))
  {
    match e
    case ChildStep(flag, key) => ChildKeeps(cs, s, flag, key);
    case ParentStep(other) => ParentKeeps(s, other);
    case _ =>
  }

  // ---------------------------------------------------------------- every run

  /** A run: any interleaving of enabled events, from before the first start. */
  ghost predicate IsRun(cs: Option<Codeset>, run: seq<Sys>, events: seq<Event>) {
    && |run| == |events| + 1 && run[0] == INITIAL
    && forall i :: 0 <= i < |events| ==>
         |run[i].ring.buf| == RING && Enabled(run[i], events[i]) && run[i + 1] == Apply(cs, run[i], events[i])
  }

  lemma {:induction false} EveryStateOk(cs: Option<Codeset>, run: seq<Sys>, events: seq<Event>, i: nat)
    requires IsRun(cs, run, events) && i < |run|
    ensures Inv(run[i])
  {
    if i > 0 {
      EveryStateOk(cs, run, events, i - 1);
      StepKeeps(cs, run[i - 1], events[i - 1]);
    }
  }

  // ---------------------------------------------------------------- what was typed

  lemma {:induction false} MarkedSnoc<T>(s: seq<T>, marks: seq<bool>, x: T, m: bool)
    requires |s| == |marks|
    ensures Marked(s + [x], marks + [m]) == Marked(s, marks) + if m then [x] else []
  {
    assert (s + [x])[..|s|] == s && (marks + [m])[..|s|] == marks;
  }

  lemma {:induction false} MeantSnoc(cs: Option<Codeset>, keys: seq<u8>, k: u8)
    ensures Meant(cs, keys + [k]) == Meant(cs, keys) + Keys(cs, k)
  {
    assert (keys + [k])[..|keys|] == keys;
  }

  lemma {:induction false} FromRingSnoc(hs: seq<Handed>, h: Handed)
    ensures FromRing(hs + [h]) == FromRing(hs) + if h.Typed? then [h.b] else []
  {
    assert (hs + [h])[..|hs|] == hs;
  }

  /** A child step hands its bytes on one at a time. */
  lemma ChildHistory(cs: Option<Codeset>, s: Sys, flag: bool, key: Option<u8>)
    requires |s.ring.buf| == RING && HistoryOk(cs, s) && !s.child.Off?
    ensures HistoryOk(cs, ChildNext(cs, s, flag, key))
  {
    ChildMarks(s);
    if s.child.ReadKey? {
      KeyInHand(cs, s, flag, key);
    } else {
      ChildPuts(cs, s, flag, key);
    }
    hide Meant, Marked, FromRing, ChildStores, ChildPc, InHand;
  }

  lemma KeyInHand(cs: Option<Codeset>, s: Sys, flag: bool, key: Option<u8>)
    requires |s.ring.buf| == RING && s.child.ReadKey? && s.ring.offered + InHand(s.child) == Meant(cs, s.keys)
    ensures var t := ChildNext(cs, s, flag, key);
      t.ring == s.ring && s.ring.offered + InHand(t.child) == Meant(cs, t.keys)
  {
    hide Meant, Keys;
    assert s.ring.offered + [] == s.ring.offered;
    if key.Some? { MeantSnoc(cs, s.keys, key.value); }
  }

  /** A byte in hand is put: taken or refused, it joins the ones offered. */
  lemma ChildPuts(cs: Option<Codeset>, s: Sys, flag: bool, key: Option<u8>)
    requires |s.ring.buf| == RING && !s.child.ReadKey? && !s.child.Off?
    ensures ChildStores(s).offered + InHand(ChildPc(cs, s, flag, key)) == s.ring.offered + InHand(s.child)
  {
    hide NextIndex, Keys;
    match s.child
    case PutCompare(b, rest, _) => Onward(s.ring.offered, b, rest);
    case PutPublish(b, rest, _) => Onward(s.ring.offered, b, rest);
    case Put(todo) => if todo != [] { assert todo == [todo[0]] + todo[1..]; }
    case _ =>
  }

  lemma ChildMarks(s: Sys)
    requires |s.ring.buf| == RING
    requires |s.ring.took| == |s.ring.offered| && s.ring.accepted == Marked(s.ring.offered, s.ring.took)
    ensures var t := ChildStores(s); |t.took| == |t.offered| && t.accepted == Marked(t.offered, t.took)
    ensures ChildStores(s).consumed == s.ring.consumed
  {
    hide NextIndex, Marked;
    match s.child
    case PutCompare(b, _, _) => MarkedSnoc(s.ring.offered, s.ring.took, b, false);
    case PutPublish(b, _, _) => MarkedSnoc(s.ring.offered, s.ring.took, b, true);
    case _ =>
  }

  lemma Onward(a: seq<u8>, b: u8, rest: seq<u8>)
    ensures a + ([b] + rest) == (a + [b]) + rest
  {
  }

  lemma ParentHistory(cs: Option<Codeset>, s: Sys, other: bool)
    requires |s.ring.buf| == RING && HistoryOk(cs, s)
    ensures HistoryOk(cs, ParentNext(s, other))
  {
    if s.parent.ReadStore? { FromRingSnoc(s.handed, Typed(s.parent.b)); }
    hide Meant, Marked, FromRing, InHand, ParentPc;
  }

  lemma StepHistory(cs: Option<Codeset>, s: Sys, e: Event)
    requires |s.ring.buf| == RING && Enabled(s, e) && HistoryOk(cs, s)
    ensures HistoryOk(cs, Apply(cs, s, e))
  {
    match e
    case ChildStep(flag, key) => ChildHistory(cs, s, flag, key);
    case ParentStep(other) => ParentHistory(cs, s, other);
    case Read(_) => FromRingSnoc(s.handed, Interrupt); hide Meant, Marked, FromRing;
    case _ =>
  }

  lemma {:induction false} EveryHistoryOk(cs: Option<Codeset>, run: seq<Sys>, events: seq<Event>, i: nat)
    requires IsRun(cs, run, events) && i < |run|
    ensures HistoryOk(cs, run[i])
  {
    if i > 0 {
      EveryHistoryOk(cs, run, events, i - 1);
      EveryStateOk(cs, run, events, i - 1);
      StepHistory(cs, run[i - 1], events[i - 1]);
    }
  }

  /**
    No key is lost on the way but by a full ring: in every state of every run the bytes put and
    those in hand are what the keys read mean, the ring took the marked ones, and what con_read()
    gave out from it is a beginning of those.
   */
  lemma KeysArrive(cs: Option<Codeset>, run: seq<Sys>, events: seq<Event>, i: nat)
    requires IsRun(cs, run, events) && i < |run|
    ensures var s := run[i];
      && s.ring.offered + InHand(s.child) == Meant(cs, s.keys)
      && |s.ring.took| == |s.ring.offered| && s.ring.accepted == Marked(s.ring.offered, s.ring.took)
      && FromRing(s.handed) <= s.ring.accepted
    ensures (forall k :: 0 <= k < |run[i].ring.took| ==> run[i].ring.took[k]) ==>
      FromRing(run[i].handed) <= Meant(cs, run[i].keys)
  {
    EveryHistoryOk(cs, run, events, i);
    EveryStateOk(cs, run, events, i);
    var r := run[i].ring;
    assert r.consumed <= r.accepted;
    hide Inv, IsRun, Meant, FromRing;
    if forall k :: 0 <= k < |r.took| ==> r.took[k] {
      AllMarked(r.offered, r.took);
    }
  }

  lemma {:induction false} AllMarked<T>(s: seq<T>, marks: seq<bool>)
    requires |s| == |marks| && forall k :: 0 <= k < |marks| ==> marks[k]
    ensures Marked(s, marks) == s
  {
    if s != [] {
      AllMarked(s[..|s| - 1], marks[..|s| - 1]);
    }
  }

  // ---------------------------------------------------------------- one read, one break

  predicate Reading(p: Parent) { p.ReadCompare? || p.ReadLoad? || p.ReadStore? }

  /** How many bytes a read in progress may still give out. */
  function Owed(p: Parent): (n: nat)
    requires Reading(p)
  {
    match p case ReadCompare(left) => left case ReadLoad(left) => left + 1 case ReadStore(left, _) => left + 1
  }

  lemma ChildLeaves(cs: Option<Codeset>, s: Sys, flag: bool, key: Option<u8>)
    requires |s.ring.buf| == RING
    ensures var t := ChildNext(cs, s, flag, key); t.parent == s.parent && t.handed == s.handed
  {
    hide ChildPc, ChildStores;
  }

  lemma ParentOwes(s: Sys, other: bool)
    requires |s.ring.buf| == RING && Reading(s.parent)
    ensures var t := ParentNext(s, other);
      && |t.handed| >= |s.handed|
      && if Reading(t.parent) then |t.handed| + Owed(t.parent) == |s.handed| + Owed(s.parent)
         else s.parent.ReadCompare? && t.handed == s.handed && (Owed(s.parent) == 0 || s.ring.tail == s.ring.head)
  {
    hide Take;
  }

  /** A step in the middle of a read moves one byte from owed to given out, or nothing. */
  lemma ReadOwesStep(cs: Option<Codeset>, s: Sys, e: Event)
    requires |s.ring.buf| == RING && Enabled(s, e) && Reading(s.parent)
    ensures var t := Apply(cs, s, e);
      && |t.handed| >= |s.handed|
      && if Reading(t.parent) then |t.handed| + Owed(t.parent) == |s.handed| + Owed(s.parent)
         else s.parent.ReadCompare? && t.handed == s.handed && (Owed(s.parent) == 0 || s.ring.tail == s.ring.head)
  {
    hide ChildNext, ParentNext;
    match e
    case ChildStep(flag, key) => ChildLeaves(cs, s, flag, key);
    case ParentStep(other) => ParentOwes(s, other);
    case _ =>
  }

  /** A read of `len` bytes, as long as it lasts: what it gave out and what it may still give make up `len`. */
  lemma {:induction false} ReadOwes(cs: Option<Codeset>, run: seq<Sys>, events: seq<Event>, i: nat, j: nat)
    requires IsRun(cs, run, events) && i < j < |run| && events[i].Read?
    requires forall k :: i < k <= j ==> Reading(run[k].parent)
    ensures |run[j].handed| + Owed(run[j].parent) == |run[i].handed| + events[i].len
    decreases j
  {
    var k := j - 1;
    assert run[j] == Apply(cs, run[k], events[k]);
    hide IsRun;
    if k > i {
      ReadOwes(cs, run, events, i, k);
      assert |run[k].ring.buf| == RING && Enabled(run[k], events[k]) by { StepOf(cs, run, events, k); }
      ReadOwesStep(cs, run[k], events[k]);
    }
  }

  lemma StepOf(cs: Option<Codeset>, run: seq<Sys>, events: seq<Event>, k: nat)
    requires IsRun(cs, run, events) && k < |events|
    ensures |run[k].ring.buf| == RING && Enabled(run[k], events[k]) && run[k + 1] == Apply(cs, run[k], events[k])
  {
  }

  /** A read gives out at most what was asked for, and less only when it finds the ring empty. */
  lemma ReadGives(cs: Option<Codeset>, run: seq<Sys>, events: seq<Event>, i: nat, j: nat)
    requires IsRun(cs, run, events) && i < j < |events| && events[i].Read?
    requires (forall k :: i < k <= j ==> Reading(run[k].parent)) && !Reading(run[j + 1].parent)
    ensures |run[i].handed| <= |run[j + 1].handed| <= |run[i].handed| + events[i].len
    ensures |run[j + 1].handed| < |run[i].handed| + events[i].len ==> run[j].ring.tail == run[j].ring.head
    ensures run[i].intr && events[i].len > 0 ==>
      |run[j + 1].handed| > |run[i].handed| && run[i + 1].handed == run[i].handed + [Interrupt]
  {
    StepOf(cs, run, events, i);
    StepOf(cs, run, events, j);
    hide IsRun;
    ReadOwes(cs, run, events, i, j);
    ReadOwesStep(cs, run[j], events[j]);
    ReadOnlyGrows(cs, run, events, i + 1, j);
    hide Apply, Enabled, Owed;
  }

  lemma {:induction false} ReadOnlyGrows(cs: Option<Codeset>, run: seq<Sys>, events: seq<Event>, i: nat, j: nat)
    requires IsRun(cs, run, events) && i <= j < |events| && forall k :: i <= k <= j ==> Reading(run[k].parent)
    ensures |run[i].handed| <= |run[j].handed|
    decreases j - i
  {
    assert |run| == |events| + 1;
    hide *;
    if i < j {
      var k := j - 1;
      ReadOnlyGrows(cs, run, events, i, k);
      StepOf(cs, run, events, k);
      ReadOwesStep(cs, run[k], events[k]);
    }
  }

  /** A Ctrl-C stays pending, as a signal or as con_intr, until a read gives it out; nothing else gives one out. */
  lemma BreakKept(cs: Option<Codeset>, s: Sys, e: Event)
    requires |s.ring.buf| == RING && Enabled(s, e)
    ensures var t := Apply(cs, s, e);
      && (e.Break? ==> t.ctrlC)
      && (s.ctrlC || s.intr ==> t.ctrlC || t.intr || (e.Read? && t.handed == s.handed + [Interrupt]))
      && (t.handed == s.handed + [Interrupt] ==> s.intr)
      && (t.intr && !s.intr ==> s.ctrlC)
  {
    hide ChildPc, ChildStores, ParentPc, Take, EmptyRing;
    if s.parent.ReadStore? {
      var n := |s.handed|;
      assert (s.handed + [Typed(s.parent.b)])[n] != (s.handed + [Interrupt])[n];
    }
  }

  /**
    What a key means: the console's 8-bit CSI is ESC [, ASCII is itself, and so is anything without
    a codeset; with one, a high byte is the UTF-8 of its character, and comes back as itself
    exactly when it can.
   */
  lemma KeysMean(cs: Option<Codeset>, k: u8, d: Dec)
    requires d.need == 0
    ensures k == 0x9B ==> Keys(cs, k) == [0x1B, 0x5B]
    ensures k < 0x80 || (cs.None? && k != 0x9B) ==> Keys(cs, k) == [k]
    ensures cs.Some? && k >= 0x80 && k != 0x9B ==>
      (DecStream(d, cs.value, Keys(cs, k)).1 == [k] <==> Survives(d.c1, cs.value, k))
    ensures cs.Some? && k >= 0x80 && k != 0x9B && !cs.value.utf8 && CodePoint(cs.value, k) >= 0x80 ==>
      Keys(cs, k) == Encode(CodePoint(cs.value, k))
  {
    if cs.Some? { LocalRoundTrip(d, cs.value, k); }
    hide DecStream, Survives;
  }

  /**
    The ring is a queue in every reachable state: what the parent has read is the front of what
    was accepted, in order; no slot about to be stored is one still to be read; a byte about to
    be read is the oldest unread one; and nothing is lost but the counted refusals.
   */
  lemma RingIsQueue(cs: Option<Codeset>, run: seq<Sys>, events: seq<Event>, i: nat)
    requires IsRun(cs, run, events) && i < |run|
    ensures var s := run[i];
      && s.ring.consumed <= s.ring.accepted && |s.ring.accepted| - |s.ring.consumed| < RING
      && |s.ring.buf| == RING
      && (forall j :: |s.ring.consumed| <= j < |s.ring.accepted| ==> s.ring.buf[j % RING] == s.ring.accepted[j])
      && (s.child.PutStore? ==> SpareSlot(s.ring, s.child.head))
      && (s.parent.ReadLoad? ==> Unread(s.ring) && s.ring.buf[s.ring.tail] == s.ring.accepted[|s.ring.consumed|])
      && (s.parent.ReadStore? ==> Unread(s.ring) && s.parent.b == s.ring.accepted[|s.ring.consumed|])
  {
    EveryStateOk(cs, run, events, i);
    var s := run[i];
    hide IsRun, LifeOk, WakeOk;
    if s.parent.ReadLoad? { OldestAtTail(s.ring); }
    if s.child.PutStore? { HeadIsSpare(s.ring); }
  }

  /** No byte still to be read is in this slot. */
  ghost predicate SpareSlot(r: Ring, slot: Slot) {
    forall j :: |r.consumed| <= j < |r.accepted| ==> slot != j % RING
  }

  lemma HeadIsSpare(r: Ring)
    requires RingOk(r)
    ensures SpareSlot(r, r.head)
  {
    forall j | |r.consumed| <= j < |r.accepted| ensures r.head != j % RING {
      SlotsDiffer(j, |r.accepted|);
    }
  }

  /** A byte is refused exactly when 255 are waiting, whatever the parent is doing. */
  lemma RefusedIffFull(cs: Option<Codeset>, run: seq<Sys>, events: seq<Event>, i: nat)
    requires IsRun(cs, run, events) && i < |events| && events[i].ChildStep? && run[i].child.PutCompare?
    ensures run[i + 1].ring.took == run[i].ring.took + [false] <==>
            |run[i].ring.accepted| - |run[i].ring.consumed| == 255
    ensures run[i + 1].ring.took == run[i].ring.took <==>
            |run[i].ring.accepted| - |run[i].ring.consumed| < 255
  {
    EveryStateOk(cs, run, events, i);
    FullIffCompare(run[i].ring);
  }

  /** The child never runs without its record, and the record goes only when the child has gone. */
  lemma RecordOutlivesChild(cs: Option<Codeset>, run: seq<Sys>, events: seq<Event>, i: nat)
    requires IsRun(cs, run, events) && i < |run|
    ensures !run[i].child.Off? ==> run[i].alloc
    ensures i < |events| && run[i].alloc && !run[i + 1].alloc ==> run[i].child.Off? && run[i].parent.Stopping?
    ensures i < |events| && events[i].StartReader? ==> run[i].child.Off? && !run[i].done
  {
    EveryStateOk(cs, run, events, i);
    if i < |events| {
      assert run[i + 1] == Apply(cs, run[i], events[i]);
      RecordStays(cs, run[i], events[i]);
    }
    hide RingOk, ChildOk, ParentOk, WakeOk, Apply;
  }

  lemma RecordStays(cs: Option<Codeset>, s: Sys, e: Event)
    requires |s.ring.buf| == RING && LifeOk(s) && Enabled(s, e)
    ensures s.alloc && !Apply(cs, s, e).alloc ==> s.child.Off? && s.parent.Stopping?
    ensures e.StartReader? ==> s.child.Off? && !s.done
  {
    hide ChildPc, ChildStores, Take, EmptyRing;
  }

  /** How many more child steps until the data is signalled. */
  function StepsToTell(c: Child): (n: nat) {
    match c
    case Put(todo) => 4 * |todo| + 2
    case PutCompare(_, rest, _) => 4 * |rest| + 5
    case PutStore(_, rest, _) => 4 * |rest| + 4
    case PutPublish(_, rest, _) => 4 * |rest| + 3
    case Tell => 1
    case _ => 0
  }

  /**
    No wakeup is lost: a parent blocked while the console is readable has its signal pending, or
    the child is a bounded number of its own steps, none of which can wait, away from sending it.
   */
  lemma NoLostWakeup(cs: Option<Codeset>, run: seq<Sys>, events: seq<Event>, i: nat, flag: bool, key: Option<u8>)
    requires IsRun(cs, run, events) && i < |run|
    requires run[i].parent.Blocked? && Readable(run[i])
    ensures run[i].data || WillTell(run[i].child)
    ensures run[i].data ==> Enabled(run[i], ParentStep(false))
    ensures !run[i].data ==>
      && |run[i].ring.buf| == RING && Enabled(run[i], ChildStep(flag, key))
      && var t := ChildNext(cs, run[i], flag, key);
         t.data || (WillTell(t.child) && StepsToTell(t.child) < StepsToTell(run[i].child))
  {
    EveryStateOk(cs, run, events, i);
  }

  /** How many more child steps until it has gone, once it has been told to quit. */
  function StepsToGo(c: Child): (n: nat) {
    match c
    case Off => 0
    case Leaving => 1
    case Top => 2
    case Start => 3
    case Tell => 3
    case Put(todo) => 4 * |todo| + 4
    case PutCompare(_, rest, _) => 4 * |rest| + 7
    case PutStore(_, rest, _) => 4 * |rest| + 6
    case PutPublish(_, rest, _) => 4 * |rest| + 5
    case ReadKey => 17
    case Await => 18
    case Resize => 19
  }

  /** The stop handshake ends: told to quit, the child is at most nineteen of its own steps from its last signal. */
  lemma StopEnds(cs: Option<Codeset>, run: seq<Sys>, events: seq<Event>, i: nat, flag: bool, key: Option<u8>)
    requires IsRun(cs, run, events) && i < |run| && run[i].parent.Stopping?
    ensures run[i].done || !run[i].child.Off?
    ensures run[i].done ==> Enabled(run[i], ParentStep(false))
    ensures !run[i].child.Off? ==>
      && |run[i].ring.buf| == RING
      && StepsToGo(ChildNext(cs, run[i], flag, key).child) < StepsToGo(run[i].child)
  {
    EveryStateOk(cs, run, events, i);
  }
}
