/**
  The in-memory pipes of clients/dropbear/amiga_dropbear.c: a table of eight pairs, each a
  128-byte buffer that is compacted on writing, a drained file, or a sink.
 */
module Pipes {
  import opened Words

  const DB_PIPE_BASE := 192
  const DB_PIPE_PAIRS := 8
  const DB_PIPE_BUF := 128

  datatype ReadResult = Bytes(b: seq<u8>) | BadFd | IoError | Again

  class DbPipe {
    var taken: bool
    var rclosed: bool
    var wclosed: bool
    var sink: bool
    var src: bool                 // the read end drains a file
    var len: int
    var pos: int
    const buf: array<u8>

    ghost predicate Valid()
      reads this
    {
      buf.Length == DB_PIPE_BUF && 0 <= pos <= len <= DB_PIPE_BUF
    }

    /** What has been accepted and not yet read. */
    ghost function Queue(): (q: seq<u8>)
      requires Valid()
      reads this, buf
    {
      buf[pos..len]
    }

    constructor ()
      ensures Valid() && fresh(buf) && !taken && !rclosed && !wclosed && !sink && !src && Queue() == []
    {
      buf := new u8[DB_PIPE_BUF];
      taken, rclosed, wclosed, sink, src, len, pos := false, false, false, false, false, 0, 0;
    }

    /** memset(p, 0, sizeof(*p)). */
    method Wipe()
      requires Valid()
      modifies this, buf
      ensures Valid() && !taken && !rclosed && !wclosed && !sink && !src && Queue() == []
    {
      for i := 0 to DB_PIPE_BUF
        invariant Valid()
      {
        buf[i] := 0;
      }
      taken, rclosed, wclosed, sink, src, len, pos := false, false, false, false, false, 0, 0;
    }

    /**
      pipe_read on the even end: bytes come out in the order they went in; an empty pipe reads
      from its file, ends once the write end is closed, or asks to be tried again. `file` is what
      Read() answers.
     */
    method Read(want: nat, file: Option<seq<u8>>) returns (r: ReadResult)
      requires Valid()
      modifies this`pos, this`len
      ensures Valid()
      ensures old(Queue()) != [] ==>
        r.Bytes? && r.b + Queue() == old(Queue()) && |r.b| == (if |old(Queue())| < want then |old(Queue())| else want)
      ensures old(Queue()) == [] ==> Queue() == [] && EmptyAnswer(src, wclosed, file, r)
    {
      if pos < len {
        var n := len - pos;
        if n > want {
          n := want;
        }
        r := Bytes(buf[pos..pos + n]);
        pos := pos + n;
        if pos == len {
          pos, len := 0, 0;
        }
        return;
      }
      if src {
        return if file.None? then IoError else Bytes(file.value);
      }
      if wclosed {
        return Bytes([]);
      }
      return Again;
    }

    /**
      pipe_write on the odd end: what fits behind the unread bytes is accepted, the rest is dropped, and
      all is reported written.
     */
    method Write(data: seq<u8>) returns (n: nat)
      requires Valid()
      modifies this`pos, this`len, buf
      ensures Valid() && n == |data|
      ensures sink ==> Queue() == old(Queue())
      ensures !sink ==> Queue() == old(Queue()) + data[..Accepted(|old(Queue())|, |data|)]
      ensures !sink ==> |Queue()| == 128 || Queue() == old(Queue()) + data
    {
      n := |data|;
      if sink {
        return;
      }
      ghost var q := Queue();
      Compact();
      var space := DB_PIPE_BUF - len;
      if space > 0 {
        var m := if space < |data| then space else |data|;
        forall k | 0 <= k < m {
          buf[len + k] := data[k];
        }
        len := len + m;
        assert buf[..len] == q + data[..m];
      }
    }

    /** The unread bytes move to the front of the buffer. */
    method Compact()
      requires Valid()
      modifies this`pos, this`len, buf
      ensures Valid() && pos == 0 && Queue() == old(Queue())
    {
      if pos > 0 {
        forall k | 0 <= k < len - pos {
          buf[k] := buf[pos + k];
        }
        len := len - pos;
        pos := 0;
      }
    }

    /** pipe_readable. */
    function Readable(): (r: bool)
      reads this
    {
      pos < len || src || wclosed
    }
  }

  function Accepted(held: nat, offered: nat): (n: nat)
    ensures n <= offered
  {
    if held >= DB_PIPE_BUF then 0 else if DB_PIPE_BUF - held < offered then DB_PIPE_BUF - held else offered
  }

  /** What reading gives with nothing buffered: the file's bytes, the end, or another try. */
  predicate EmptyAnswer(src: bool, wclosed: bool, file: Option<seq<u8>>, r: ReadResult) {
    && (src && file.Some? ==> r == Bytes(file.value))
    && (src && file.None? ==> r == IoError)
    && (!src && wclosed ==> r == Bytes([]))
    && (!src && !wclosed ==> r == Again)
  }

  // ---------------------------------------------------------------- the table

  predicate IsPipe(fd: int) { DB_PIPE_BASE <= fd < DB_PIPE_BASE + 2 * DB_PIPE_PAIRS }

  function PairOf(fd: int): (i: nat)
    requires IsPipe(fd)
    ensures i < DB_PIPE_PAIRS
  {
    (fd - DB_PIPE_BASE) / 2
  }

  predicate IsRead(fd: int) { (fd - DB_PIPE_BASE) % 2 == 0 }

  function ReadEnd(i: nat): (fd: int) { DB_PIPE_BASE + 2 * i }

  /** Closed ends of a pair in use are flagged; a free pair has no open end; both flags together never stay. */
  predicate EndsOk(taken: bool, rclosed: bool, wclosed: bool, readOpen: bool, writeOpen: bool) {
    && !(rclosed && wclosed)
    && (taken ==> (readOpen <==> !rclosed) && (writeOpen <==> !wclosed))
    && (!taken ==> !readOpen && !writeOpen)
  }

  class PipeTable {
    const pairs: seq<DbPipe>
    ghost var open: set<int>        // the descriptors handed out and not closed since

    ghost predicate Distinct() {
      && |pairs| == DB_PIPE_PAIRS
      && (forall i, j :: 0 <= i < j < |pairs| ==> pairs[i] != pairs[j] && pairs[i].buf != pairs[j].buf)
    }

    ghost predicate Valid()
      reads this, pairs
    {
      && Distinct()
      && (forall fd :: fd in open ==> IsPipe(fd))
      && (forall i :: 0 <= i < |pairs| ==> pairs[i].Valid())
      && (forall i :: 0 <= i < |pairs| ==>
            EndsOk(pairs[i].taken, pairs[i].rclosed, pairs[i].wclosed, ReadEnd(i) in open, ReadEnd(i) + 1 in open))
    }

    /** pipe(): two ends nobody holds, with nothing in between; refused exactly when every pair has an open end. */
    method Pipe() returns (fd: int)
      requires Valid()
      modifies this, pairs, set p | p in pairs :: p.buf
      ensures Valid()
      ensures fd == -1 <==> forall g :: 192 <= g <= 206 && g % 2 == 0 ==> g in old(open) || g + 1 in old(open)
      ensures fd == -1 ==> open == old(open)
      ensures fd != -1 ==>
        192 <= fd <= 206 && fd % 2 == 0 && fd !in old(open) && fd + 1 !in old(open) && open == old(open) + {fd, fd + 1}
      ensures fd != -1 ==> forall g :: 192 <= g < fd && g % 2 == 0 ==> g in old(open) || g + 1 in old(open)
      ensures fd != -1 ==> pairs[PairOf(fd)].Queue() == []
      ensures forall p :: p in pairs && (fd == -1 || p != pairs[PairOf(fd)]) ==> unchanged(p) && unchanged(p.buf)
    {
      for i := 0 to DB_PIPE_PAIRS
        invariant unchanged(this) && forall p :: p in pairs ==> unchanged(p) && unchanged(p.buf)
        invariant forall j :: 0 <= j < i ==> pairs[j].taken
      {
        if !pairs[i].taken {
          TakenBelow(i);
          fd := TakePair(i);
          return;
        }
      }
      TakenBelow(DB_PIPE_PAIRS);
      return -1;
    }

    /** A pair in use has an open end. */
    lemma TakenBelow(n: nat)
      requires Valid() && n <= |pairs| && forall j :: 0 <= j < n ==> pairs[j].taken
      ensures forall g :: 192 <= g < 192 + 2 * n && g % 2 == 0 ==> g in open || g + 1 in open
      ensures n < |pairs| && !pairs[n].taken ==> 192 + 2 * n !in open && 192 + 2 * n + 1 !in open
    {
      forall g | 192 <= g < 192 + 2 * n && g % 2 == 0 ensures g in open || g + 1 in open {
        var j := (g - 192) / 2;
        assert g == ReadEnd(j) && pairs[j].taken;
      }
    }

    /** A free pair is cleared and handed out. */
    method TakePair(i: nat) returns (fd: int)
      requires Valid() && i < |pairs| && !pairs[i].taken
      modifies this, pairs[i], pairs[i].buf
      ensures Valid() && fd == ReadEnd(i) && open == old(open) + {fd, fd + 1} && pairs[i].Queue() == []
    {
      pairs[i].Wipe();
      pairs[i].taken := true;
      fd := ReadEnd(i);
      open := open + {fd, fd + 1};
    }

    /** pipe_close: the end goes, the other one and its bytes stay until it goes too. */
    method Close(fd: int)
      requires Valid() && IsPipe(fd)
      modifies this, pairs, set p | p in pairs :: p.buf
      ensures Valid() && open == old(open) - {fd}
      ensures (if IsRead(fd) then fd + 1 else fd - 1) in open ==>
        var p := pairs[PairOf(fd)]; p.Queue() == old(p.Queue())
      ensures forall p :: p in pairs && p != pairs[PairOf(fd)] ==> unchanged(p) && unchanged(p.buf)
    {
      CloseEnd(PairOf(fd), IsRead(fd), fd);
    }

    /** One end of a pair; with both gone the pair is free again. */
    method CloseEnd(i: nat, read: bool, fd: int)
      requires Valid() && i < |pairs| && fd == (if read then ReadEnd(i) else ReadEnd(i) + 1)
      modifies this, pairs[i], pairs[i].buf
      ensures Valid() && open == old(open) - {fd}
      ensures (if read then fd + 1 else fd - 1) in open ==> pairs[i].Queue() == old(pairs[i].Queue())
    {
      var p := pairs[i];
      if read {
        p.rclosed := true;
        p.src := false;
      } else {
        p.wclosed := true;
      }
      open := open - {fd};
      if p.rclosed && p.wclosed {
        p.Wipe();
      }
    }

    /** pipe_read: the write end cannot be read; otherwise the pair's queue gives its front. */
    method ReadFrom(fd: int, want: nat, file: Option<seq<u8>>) returns (r: ReadResult)
      requires Valid() && IsPipe(fd)
      modifies pairs
      ensures Valid() && open == old(open)
      ensures var p := pairs[PairOf(fd)];
        if !IsRead(fd) then r == BadFd && p.Queue() == old(p.Queue())
        else if old(p.Queue()) == [] then EmptyAnswer(p.src, p.wclosed, file, r) && p.Queue() == []
        else r.Bytes? && r.b + p.Queue() == old(p.Queue()) && (|r.b| == want || (|r.b| < want && p.Queue() == []))
      ensures forall p :: p in pairs && p != pairs[PairOf(fd)] ==> unchanged(p)
    {
      if !IsRead(fd) {
        return BadFd;
      }
      r := pairs[PairOf(fd)].Read(want, file);
    }

    /** pipe_write: the read end cannot be written; otherwise what fits joins the pair's queue. */
    method WriteTo(fd: int, data: seq<u8>) returns (n: int)
      requires Valid() && IsPipe(fd)
      modifies pairs, set p | p in pairs :: p.buf
      ensures Valid() && open == old(open)
      ensures n == if IsRead(fd) then -1 else |data|
      ensures var p := pairs[PairOf(fd)];
        p.Queue() == old(p.Queue()) + if IsRead(fd) || p.sink then [] else data[..Accepted(|old(p.Queue())|, |data|)]
      ensures forall p :: p in pairs && p != pairs[PairOf(fd)] ==> unchanged(p) && unchanged(p.buf)
    {
      if IsRead(fd) {
        return -1;
      }
      n := pairs[PairOf(fd)].Write(data);
    }
  }

  // ---------------------------------------------------------------- many calls on one pair

  datatype Call = Put(data: seq<u8>) | Get(want: nat)

  /** What a run of writes and reads accepts, gives out and leaves, by the contracts above. */
  datatype Flow = Flow(accepted: seq<u8>, given: seq<u8>, held: seq<u8>)

  function After(calls: seq<Call>): (f: Flow) {
    if calls == [] then Flow([], [], [])
    else
      var f, c := After(calls[..|calls| - 1]), calls[|calls| - 1];
      match c
      case Put(data) =>
        var taken := data[..Accepted(|f.held|, |data|)];
        Flow(f.accepted + taken, f.given, f.held + taken)
      case Get(want) =>
        var n := if |f.held| < want then |f.held| else want;
        Flow(f.accepted, f.given + f.held[..n], f.held[n..])
  }

  /**
    A bounded queue: the bytes given out are the accepted bytes in order, at most 128 are held, and none
    is lost once accepted.
   */
  lemma {:induction false} BoundedQueue(calls: seq<Call>)
    ensures var f := After(calls); f.accepted == f.given + f.held && |f.held| <= 128
  {
    if calls != [] {
      BoundedQueue(calls[..|calls| - 1]);
      var f := After(calls[..|calls| - 1]);
      match calls[|calls| - 1]
      case Put(data) =>
      case Get(want) =>
        var n := if |f.held| < want then |f.held| else want;
        assert f.held == f.held[..n] + f.held[n..];
    }
  }

  /** A write is cut short exactly when the queue has no room for all of it, and then it fills the 128 bytes. */
  lemma DroppedIffFull(calls: seq<Call>, data: seq<u8>)
    ensures var f, g := After(calls), After(calls + [Put(data)]);
      && (g.accepted == f.accepted + data <==> |f.held| + |data| <= 128)
      && f.accepted <= g.accepted <= f.accepted + data && (|f.held| + |data| > 128 ==> |g.held| == 128)
      && g.given == f.given
  {
    BoundedQueue(calls);
    assert (calls + [Put(data)])[..|calls|] == calls;
    var f, g := After(calls), After(calls + [Put(data)]);
    assert |g.accepted| == |f.accepted| + Accepted(|f.held|, |data|);
    if |f.held| + |data| <= DB_PIPE_BUF {
      assert data[..|data|] == data;
    }
  }

  /** A read gives the oldest bytes, all that are held or all that are asked for. */
  lemma GivenInOrder(calls: seq<Call>, want: nat)
    ensures var f, g := After(calls), After(calls + [Get(want)]);
      && f.given <= g.given && g.accepted == f.accepted
      && (|g.given| - |f.given| == want || (|g.given| - |f.given| < want && g.held == []))
  {
    assert (calls + [Get(want)])[..|calls|] == calls;
  }

  /**
    Any run of writes and reads on a real pipe, whatever its positions and compactions: what is
    given out and what the pipe then holds are those of the queue, so together they are the bytes
    accepted, in order, and never more than 128 are held.
   */
  method RunCalls(p: DbPipe, calls: seq<Call>) returns (given: seq<u8>)
    requires p.Valid() && p.Queue() == [] && !p.sink && !p.src
    modifies p, p.buf
    ensures p.Valid() && p.Queue() == After(calls).held && given == After(calls).given
    ensures given + p.Queue() == After(calls).accepted && |p.Queue()| <= DB_PIPE_BUF
  {
    given := [];
    assert calls[..0] == [] && After([]).held == [] && After([]).given == [];
    hide After, DbPipe.Valid, DbPipe.Queue;
    for i := 0 to |calls|
      invariant p.Valid() && !p.sink && !p.src
      invariant p.Queue() == After(calls[..i]).held && given == After(calls[..i]).given
    {
      given := RunCall(p, calls[i], given, calls[..i]);
      assert calls[..i + 1] == calls[..i] + [calls[i]];
    }
    assert calls[..|calls|] == calls;
    BoundedQueue(calls);
  }

  method RunCall(p: DbPipe, call: Call, given0: seq<u8>, ghost before: seq<Call>) returns (given: seq<u8>)
    requires p.Valid() && !p.sink && !p.src && p.Queue() == After(before).held && given0 == After(before).given
    modifies p, p.buf
    ensures p.Valid() && !p.sink && !p.src
    ensures p.Queue() == After(before + [call]).held && given == After(before + [call]).given
  {
    assert (before + [call])[..|before|] == before;
    given := given0;
    match call
    case Put(data) =>
      var n := p.Write(data);
    case Get(want) =>
      ghost var q := p.Queue();
      var r := p.Read(want, None);
      if r.Bytes? {
        given := given + r.b;
      }
      assert q != [] ==> r.b == q[..|r.b|] && p.Queue() == q[|r.b|..];
  }
}
