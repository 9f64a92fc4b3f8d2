/**
  The console writer of clients/dropbear/amiga_dropbear.c, which puts a CR before every LF that
  lacks one, through a 256-byte buffer and across calls.
 */
module ConWrite {
  import opened Words

  const CR: u8 := 13
  const LF: u8 := 10
  const OUT := 256

  /** The transform: `prev` is the byte written before these. */
  function Crlf(prev: u8, s: seq<u8>): (t: seq<u8>)
    decreases |s|
  {
    if s == [] then [] else One(prev, s[0]) + Crlf(s[0], s[1..])
  }

  function One(prev: u8, c: u8): (t: seq<u8>) { if c == LF && prev != CR then [CR, LF] else [c] }

  lemma CrlfOne(prev: u8, c: u8)
    ensures Crlf(prev, [c]) == One(prev, c)
  {
    assert [c][1..] == [];
  }

  function Last(prev: u8, s: seq<u8>): (b: u8) { if s == [] then prev else s[|s| - 1] }

  // ---------------------------------------------------------------- the writer

  class Console {
    const buffer: array<u8>
    var prev: seq<u8>                  // con_wr_prev, one byte per descriptor
    ghost var written: seq<u8>         // everything handed to amiga_raw_write

    ghost predicate Valid()
      reads this
    {
      buffer.Length == OUT && |prev| == 3
    }

    method RawWrite(n: nat)
      requires Valid() && n <= OUT
      modifies this`written
      ensures written == old(written) + buffer[..n]
    {
      written := written + buffer[..n];
    }

    /** con_write: whatever is flushed when, what goes out is the transform of what came in. */
    method Write(fd: int, input: seq<u8>) returns (n: nat)
      requires Valid()
      modifies this, buffer
      ensures Valid() && n == |input|
      ensures 0 <= fd < 3 ==> written == old(written) + Crlf(old(prev)[fd], input)
      ensures 0 <= fd < 3 ==> prev == old(prev)[fd := Last(old(prev)[fd], input)]
      ensures !(0 <= fd < 3) ==> written == old(written) + Crlf(0, input) && prev == old(prev)
    {
      var first := if 0 <= fd < 3 then prev[fd] else 0;
      var last := first;
      var o := 0;
      ghost var out := written;
      assert input[..0] == [] && buffer[..0] == [] && out + [] == out;
      assert Sent(out, 0, out, first, []);
      hide Sent, Crlf;
      for i := 0 to |input|
        invariant Valid() && 0 <= o <= OUT && prev == old(prev)
        invariant last == Last(first, input[..i]) && Sent(written, o, out, first, input[..i])
      {
        assert input[..i + 1] == input[..i] + [input[i]];
        o := Turn(o, last, input[i], out, first, input[..i]);
        last := input[i];
      }
      assert input[..|input|] == input;
      Flush(o, out, first, input);
      if 0 <= fd < 3 {
        prev := prev[fd := last];
      }
      n := |input|;
    }

    /** What has gone out and what the buffer holds make up the transform of the bytes taken. */
    ghost predicate Sent(w: seq<u8>, o: nat, out: seq<u8>, first: u8, done: seq<u8>)
      reads buffer
      requires o <= buffer.Length
    {
      w + buffer[..o] == out + Crlf(first, done)
    }

    method Flush(o: nat, ghost out: seq<u8>, ghost first: u8, ghost done: seq<u8>)
      requires Valid() && o <= OUT && Sent(written, o, out, first, done)
      modifies this`written
      ensures written == out + Crlf(first, done)
    {
      if o > 0 {
        RawWrite(o);
      } else {
        assert written + [] == written;
      }
    }

    /** One turn of the loop: flush when there might not be room, then the byte. */
    method Turn(at: nat, last: u8, c: u8, ghost out: seq<u8>, ghost first: u8, ghost done: seq<u8>) returns (o: nat)
      requires Valid() && at <= OUT && last == Last(first, done) && Sent(written, at, out, first, done)
      modifies this`written, buffer
      ensures Valid() && o <= OUT && Sent(written, o, out, first, done + [c])
    {
      o := at;
      if o >= OUT - 2 {
        Flush(o, out, first, done);
        o := 0;
        assert written + buffer[..0] == written;
      }
      CrlfSnoc(first, done, c);
      hide Crlf, One;
      o := Put(o, last, c, out + Crlf(first, done));
      Regroup(out, Crlf(first, done), One(last, c));
    }

    /** One byte into the buffer, behind a CR if it needs one. */
    method Put(at: nat, last: u8, c: u8, ghost so: seq<u8>) returns (o: nat)
      requires Valid() && at + 2 <= OUT && written + buffer[..at] == so
      modifies buffer
      ensures at < o <= OUT && written + buffer[..o] == so + One(last, c)
    {
      o := at;
      if c == LF && last != CR {
        buffer[o] := CR;
        o := o + 1;
      }
      buffer[o] := c;
      o := o + 1;
      assert buffer[..o] == buffer[..at] + One(last, c);
    }
  }

  // ---------------------------------------------------------------- what the transform does

  lemma CrlfFirst(prev: u8, s: seq<u8>)
    requires s != []
    ensures Crlf(prev, s) == One(prev, s[0]) + Crlf(s[0], s[1..])
  {
  }

  lemma LastSplit(prev: u8, a: seq<u8>, b: seq<u8>)
    ensures Last(prev, a + b) == Last(Last(prev, a), b)
    ensures a != [] ==> Last(prev, a) == Last(a[0], a[1..])
  {
  }

  lemma Regroup(a: seq<u8>, b: seq<u8>, c: seq<u8>)
    ensures a + (b + c) == (a + b) + c
  {
  }

  /** However a stream is cut into calls, the same bytes go out. */
  lemma {:induction false} CrlfSplit(prev: u8, a: seq<u8>, b: seq<u8>)
    ensures Crlf(prev, a + b) == Crlf(prev, a) + Crlf(Last(prev, a), b)
    decreases |a|
  {
    if a == [] {
      assert a + b == b;
    } else {
      CrlfFirst(prev, a + b);
      CrlfFirst(prev, a);
      hide Crlf, One, Last;
      assert (a + b)[1..] == a[1..] + b;
      CrlfSplit(a[0], a[1..], b);
      LastSplit(prev, a, b);
      Regroup(One(prev, a[0]), Crlf(a[0], a[1..]), Crlf(Last(prev, a), b));
    }
  }

  lemma CrlfSnoc(prev: u8, a: seq<u8>, c: u8)
    ensures Crlf(prev, a + [c]) == Crlf(prev, a) + One(Last(prev, a), c)
    ensures Last(prev, a + [c]) == c
  {
    CrlfSplit(prev, a, [c]);
    CrlfOne(Last(prev, a), c);
  }

  function Joined(pieces: seq<seq<u8>>): (s: seq<u8>) { if pieces == [] then [] else pieces[0] + Joined(pieces[1..]) }

  function Written(prev: u8, pieces: seq<seq<u8>>): (t: seq<u8>)
    decreases |pieces|
  {
    if pieces == [] then [] else Crlf(prev, pieces[0]) + Written(Last(prev, pieces[0]), pieces[1..])
  }

  lemma {:induction false} AnySplit(prev: u8, pieces: seq<seq<u8>>)
    ensures Written(prev, pieces) == Crlf(prev, Joined(pieces))
    decreases |pieces|
  {
    if pieces != [] {
      AnySplit(Last(prev, pieces[0]), pieces[1..]);
      CrlfSplit(prev, pieces[0], Joined(pieces[1..]));
    }
  }

  /** Every LF stands behind a CR. */
  predicate Paired(prev: u8, t: seq<u8>)
    decreases |t|
  {
    t == [] || ((t[0] == LF ==> prev == CR) && Paired(t[0], t[1..]))
  }

  /** The byte in front of position `i`. */
  function Ahead(prev: u8, t: seq<u8>, i: nat): (b: u8)
    requires i <= |t|
  {
    if i == 0 then prev else t[i - 1]
  }

  lemma {:induction false} PairedMeans(prev: u8, t: seq<u8>)
    ensures Paired(prev, t) <==> forall i :: 0 <= i < |t| && t[i] == 10 ==> Ahead(prev, t, i) == 13
    decreases |t|
  {
    if t != [] {
      var rest := t[1..];
      PairedMeans(t[0], rest);
      assert forall i :: 0 <= i < |rest| ==> rest[i] == t[i + 1];
      if forall i :: 0 <= i < |t| && t[i] == LF ==> Ahead(prev, t, i) == CR {
        forall i | 0 <= i < |rest| && rest[i] == LF ensures Ahead(t[0], rest, i) == CR {
          assert t[i + 1] == LF;
        }
        assert t[0] == LF ==> Ahead(prev, t, 0) == CR;
      }
      if Paired(prev, t) {
        forall i | 0 <= i < |t| && t[i] == LF ensures Ahead(prev, t, i) == CR {
          if i > 0 {
            assert rest[i - 1] == LF;
          }
        }
      }
    }
  }

  lemma PairedOne(prev: u8, c: u8, rest: seq<u8>)
    ensures Paired(prev, One(prev, c) + rest) <==> Paired(c, rest)
  {
    var t := One(prev, c) + rest;
    if c == LF && prev != CR {
      assert t[1..] == [LF] + rest;
      assert t[1..][1..] == rest;
    } else {
      assert t[1..] == rest;
    }
  }

  /** Output is always paired, and only paired input goes out unchanged; so writing the output again changes nothing. */
  lemma {:induction false} CrlfPairs(prev: u8, s: seq<u8>)
    ensures Paired(prev, Crlf(prev, s)) && |Crlf(prev, s)| >= |s|
    ensures Crlf(prev, s) == s <==> Paired(prev, s)
    decreases |s|
  {
    if s != [] {
      var one, rest := One(prev, s[0]), Crlf(s[0], s[1..]);
      CrlfPairs(s[0], s[1..]);
      PairedOne(prev, s[0], rest);
      assert |one| == 1 ==> (one + rest)[1..] == rest && one == [s[0]];
      assert |one| == 2 ==> |one + rest| > |s|;
      assert s == [s[0]] + s[1..];
    }
  }

  lemma Idempotent(prev: u8, s: seq<u8>)
    ensures Crlf(prev, Crlf(prev, s)) == Crlf(prev, s)
  {
    CrlfPairs(prev, s);
    CrlfPairs(prev, Crlf(prev, s));
  }

  /** The bytes without the CRs that stand before an LF. */
  function Bare(s: seq<u8>): (t: seq<u8>) {
    if s == [] then [] else (if s[0] == CR && |s| > 1 && s[1] == LF then [] else [s[0]]) + Bare(s[1..])
  }

  /** Nothing but such CRs is added, and nothing is lost. */
  lemma {:induction false} OnlyCrAdded(prev: u8, s: seq<u8>)
    ensures Bare(Crlf(prev, s)) == Bare(s)
    ensures s != [] ==> Crlf(prev, s) != [] && (Crlf(prev, s)[0] == LF <==> s[0] == LF && prev == CR)
    decreases |s|
  {
    if s != [] {
      var t, rest := Crlf(prev, s), Crlf(s[0], s[1..]);
      OnlyCrAdded(s[0], s[1..]);
      BareOne(prev, s[0], rest);
    }
  }

  lemma BareOne(prev: u8, c: u8, rest: seq<u8>)
    ensures Bare(One(prev, c) + rest) == (if c == CR && rest != [] && rest[0] == LF then [] else [c]) + Bare(rest)
  {
    var t := One(prev, c) + rest;
    if c == LF && prev != CR {
      assert t[1..] == [LF] + rest;
      assert t[1..][1..] == rest;
    } else {
      assert t[1..] == rest;
    }
  }

  /** How many LFs lack a CR in front of them. */
  function Lone(prev: u8, s: seq<u8>): (n: nat)
    decreases |s|
  {
    if s == [] then 0 else (if s[0] == 10 && prev != 13 then 1 else 0) + Lone(s[0], s[1..])
  }

  /** One byte is added for each of those, and no other. */
  lemma {:induction false} OneCrEach(prev: u8, s: seq<u8>)
    ensures |Crlf(prev, s)| == |s| + Lone(prev, s)
    decreases |s|
  {
    if s != [] { OneCrEach(s[0], s[1..]); }
  }
}
