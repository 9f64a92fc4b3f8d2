/**
  Copying a frame and summing it in one pass: the reference of bench/sumcheck.c, the receive hook
  of src/sana2/sana2_copy.c and the out-of-phase copy of src/netdev/zz9000.c, each against the
  SUMMED promise of include/aminetxduo/anxs2ext.h.
 */
module CopySum {
  import opened Words
  import opened Ones

  // ---------------------------------------------------------------- longwords

  function Byte(b: seq<u8>, i: nat): (x: u8) { if i < |b| then b[i] else 0 }

  /** The big-endian longword at the front of some bytes, padded with zeroes where they end. */
  function Long(b: seq<u8>): (w: u32) {
    Byte(b, 0) as int * 0x100_0000 + Byte(b, 1) as int * 0x1_0000 + Byte(b, 2) as int * 0x100 + Byte(b, 3)
  }

  /** The longwords of some bytes, a last partial one padded. */
  function Longs(b: seq<u8>): (ws: seq<u32>) {
    if b == [] then [] else if |b| <= 4 then [Long(b)] else [Long(b)] + Longs(b[4..])
  }

  lemma {:induction false} LongsFirst(b: seq<u8>)
    requires |b| >= 4
    ensures Longs(b) == [Long(b)] + Longs(b[4..])
  {
  }

  lemma {:induction false} LongsConcat(a: seq<u8>, b: seq<u8>)
    requires |a| % 4 == 0
    ensures Longs(a + b) == Longs(a) + Longs(b)
  {
    if a == [] {
      assert a + b == b;
    } else {
      LongsFirst(a);
      LongsFirst(a + b);
      hide Longs;
      LongsConcat(a[4..], b);
      assert (a + b)[4..] == a[4..] + b;
      assert Long(a + b) == Long(a);
    }
  }

  /** Longwords carry the same 16-bit sum as the halves they are made of. */
  lemma {:induction false} LongsLikeLanes(b: seq<u8>)
    ensures Like(Total(Longs(b)), Bytes(b))
  {
    hide Longs, Lanes, Bytes, Total, Like;
    if |b| > 4 {
      LongsLikeLanes(b[..4]);
      LongsLikeLanes(b[4..]);
      assert b == b[..4] + b[4..];
      LongsConcat(b[..4], b[4..]);
      TotalConcat(Longs(b[..4]), Longs(b[4..]));
      BytesConcat(b[..4], b[4..]);
      LikeAdd(Total(Longs(b[..4])), Bytes(b[..4]), Total(Longs(b[4..])), Bytes(b[4..]));
    } else {
      FewBytes(b);
    }
  }

  lemma {:induction false} FewBytes(b: seq<u8>)
    requires |b| <= 4
    ensures Like(Total(Longs(b)), Bytes(b))
  {
    hide Lanes, Total;
    var hi, lo := Byte(b, 0) as int * 256 + Byte(b, 1), Byte(b, 2) as int * 256 + Byte(b, 3);
    assert Long(b) == hi * 0x1_0000 + lo;
    FewLanes(b);
    TotalFew(Long(b), 0);
    TotalFew(hi, lo);
    ModPlus(Long(b), hi + lo, hi);
  }

  lemma {:induction false} FewLanes(b: seq<u8>)
    requires |b| <= 4
    ensures Lanes(b) == if b == [] then [] else if |b| <= 2 then [Byte(b, 0) as int * 256 + Byte(b, 1)]
      else [Byte(b, 0) as int * 256 + Byte(b, 1), Byte(b, 2) as int * 256 + Byte(b, 3)]
  {
    if b == [] {
      return;
    }
    hide Lanes;
    FirstLane(b);
    if |b| > 2 {
      FirstLane(b[2..]);
    }
  }

  lemma {:induction false} FirstLane(b: seq<u8>)
    requires b != []
    ensures Lanes(b) == [Byte(b, 0) as int * 256 + Byte(b, 1)] + (if |b| <= 2 then [] else Lanes(b[2..]))
  {
  }

  /** `acc += w; if (acc < w) acc++;` on 32-bit words. */
  function Accumulate(acc: u32, w: u32): (r: u32)
    ensures r == AddAround(acc, w, M32)
  {
    var s := (acc + w) % TWO32;
    if s < w then s + 1 else s
  }

  /** One more run of bytes, summed on its own, joins a running sum. */
  lemma Join(acc: u32, a: seq<nat>, bulk: u32, b: seq<nat>)
    requires acc == Canon(Total(a), M32) && bulk == Canon(Total(b), M32)
    ensures Accumulate(acc, bulk) == Canon(Total(a + b), M32)
  {
    AddAroundIsSum(Total(a), Total(b), M32);
    TotalConcat(a, b);
  }

  lemma JoinOne(acc: u32, a: seq<nat>, w: u32)
    requires acc == Canon(Total(a), M32)
    ensures Accumulate(acc, w) == Canon(Total(a + [w]), M32)
  {
    CanonSmall(w, M32);
    assert Total([w]) == w;
    Join(acc, a, w, [w]);
  }

  // ---------------------------------------------------------------- copying

  /** `now` is `was` with `src` laid over it at `t`. */
  ghost predicate Laid(now: seq<u8>, was: seq<u8>, t: nat, src: seq<u8>) {
    |now| == |was| && forall i :: 0 <= i < |now| ==> now[i] == if t <= i < t + |src| then src[i - t] else was[i]
  }

  lemma LaidOn(a: seq<u8>, b: seq<u8>, c: seq<u8>, t: nat, x: seq<u8>, y: seq<u8>)
    requires Laid(b, a, t, x) && Laid(c, b, t + |x|, y)
    ensures Laid(c, a, t, x + y)
  {
  }

  /** The first `n` bytes of `src` from `f` on lie at `t`, nothing else changed, and `acc` is their end-around total. */
  ghost predicate CopiedAndSummed(now: seq<u8>, was: seq<u8>, t: nat, src: seq<u8>, f: nat, n: nat, acc: u32)
    requires f + n <= |src|
  {
    Laid(now, was, t, src[f..f + n]) && acc == Canon(Total(Longs(src[f..f + n])), M32)
  }

  lemma Begun(now: seq<u8>, t: nat, src: seq<u8>, f: nat)
    requires f <= |src|
    ensures CopiedAndSummed(now, now, t, src, f, 0, 0)
  {
    assert src[f..f] == [];
  }

  lemma {:induction false} OneLong(b: seq<u8>)
    requires 1 <= |b| <= 4
    ensures Longs(b) == [Long(b)]
  {
  }

  /** What moving one more longword, or the padded last one, adds. */
  lemma OneMore(a: seq<u8>, b: seq<u8>, c: seq<u8>, t: nat, s: seq<u8>, f: nat, i: nat, n: nat, acc: u32)
    requires 1 <= n <= 4 && f + i + n <= |s| && i % 4 == 0
    requires CopiedAndSummed(b, a, t, s, f, i, acc) && Laid(c, b, t + i, s[f + i..f + i + n])
    ensures CopiedAndSummed(c, a, t, s, f, i + n, Accumulate(acc, Long(s[f + i..f + i + n])))
  {
    hide Laid, Longs, Long, Canon, Total, Accumulate;
    var done, next := s[f..f + i], s[f + i..f + i + n];
    OneLong(next);
    assert s[f..f + i + n] == done + next;
    LaidOn(a, b, c, t, done, next);
    LongsConcat(done, next);
    JoinOne(acc, Longs(done), Long(next));
  }

  /** One longword moved and read. */
  method MoveLong(to: array<u8>, t: nat, from: array<u8>, f: nat) returns (w: u32)
    requires to != from && t + 4 <= to.Length && f + 4 <= from.Length
    modifies to
    ensures Laid(to[..], old(to[..]), t, from[..][f..f + 4]) && w == Long(from[..][f..f + 4])
  {
    to[t], to[t + 1], to[t + 2], to[t + 3] := from[f], from[f + 1], from[f + 2], from[f + 3];
    w := Long(from[f..f + 4]);
    assert from[..][f..f + 4] == from[f..f + 4];
  }

  /** One turn of v_reference's loop. */
  method AddLong(to: array<u8>, t: nat, from: array<u8>, f: nat, i: nat, acc0: u32, ghost was: seq<u8>)
    returns (acc: u32)
    requires to != from && t + i + 4 <= to.Length && f + i + 4 <= from.Length && i % 4 == 0
    requires CopiedAndSummed(to[..], was, t, from[..], f, i, acc0)
    modifies to
    ensures CopiedAndSummed(to[..], was, t, from[..], f, i + 4, acc)
  {
    hide *;
    var w := MoveLong(to, t + i, from, f + i);
    OneMore(was, old(to[..]), to[..], t, from[..], f, i, 4, acc0);
    acc := Accumulate(acc0, w);
  }

  /** v_reference: an exact copy, and the end-around-carry total of the longwords. */
  method CopySumLongwords(to: array<u8>, t: nat, from: array<u8>, f: nat, count: nat) returns (acc: u32)
    requires to != from && t + 4 * count <= to.Length && f + 4 * count <= from.Length
    modifies to
    ensures CopiedAndSummed(to[..], old(to[..]), t, from[..], f, 4 * count, acc)
  {
    acc := 0;
    var i := 0;
    hide *;
    ghost var src, was := from[..], to[..];
    Begun(was, t, src, f);
    while i < count
      invariant 0 <= i <= count && from[..] == src
      invariant CopiedAndSummed(to[..], was, t, src, f, 4 * i, acc)
    {
      acc := AddLong(to, t, from, f, 4 * i, acc, was);
      i := i + 1;
    }
  }

  /** Up to four bytes moved one by one, and read as one zero-padded longword. */
  method MovePart(to: array<u8>, t: nat, from: array<u8>, f: nat, n: nat) returns (w: u32)
    requires to != from && n <= 4 && t + n <= to.Length && f + n <= from.Length
    modifies to
    ensures Laid(to[..], old(to[..]), t, from[..][f..f + n]) && w == Long(from[..][f..f + n])
  {
    var b: seq<u8> := [0, 0, 0, 0];
    for k := 0 to n
      invariant Laid(to[..], old(to[..]), t, from[f..f + k])
      invariant |b| == 4 && forall j :: 0 <= j < 4 ==> b[j] == if j < k then from[f + j] else 0
    {
      to[t + k] := from[f + k];
      b := b[k := from[f + k]];
    }
    w := Long(b);
    assert from[..][f..f + n] == from[f..f + n];
  }

  method AddPart(to: array<u8>, t: nat, from: array<u8>, f: nat, i: nat, n: nat, sum0: u32, ghost was: seq<u8>)
    returns (sum: u32)
    requires to != from && 1 <= n <= 4 && t + i + n <= to.Length && f + i + n <= from.Length && i % 4 == 0
    requires CopiedAndSummed(to[..], was, t, from[..], f, i, sum0)
    modifies to
    ensures CopiedAndSummed(to[..], was, t, from[..], f, i + n, sum)
  {
    hide *;
    var w := MovePart(to, t + i, from, f + i, n);
    OneMore(was, old(to[..]), to[..], t, from[..], f, i, n, sum0);
    sum := Accumulate(sum0, w);
  }

  /** ami_sana2_copy_sum: bytewise at an odd address, longwords and a tail otherwise, with one result. */
  method CopySumBytes(to: array<u8>, t: nat, from: array<u8>, f: nat, len: nat, odd: bool) returns (sum: u32)
    requires to != from && t + len <= to.Length && f + len <= from.Length
    modifies to
    ensures CopiedAndSummed(to[..], old(to[..]), t, from[..], f, len, sum)
    ensures Fold16(sum) == Rfc1071(Lanes(from[..][f..f + len]))
  {
    hide *;
    if odd {
      sum := CopySumOdd(to, t, from, f, len);
    } else {
      var words, tail := len / 4, len % 4;
      sum := CopySumLongwords(to, t, from, f, words);
      if tail != 0 {
        sum := AddPart(to, t, from, f, 4 * words, tail, sum, old(to[..]));
      }
    }
    SummedFolds(to[..], old(to[..]), t, from[..], f, len, sum);
  }

  method CopySumOdd(to: array<u8>, t: nat, from: array<u8>, f: nat, len: nat) returns (sum: u32)
    requires to != from && t + len <= to.Length && f + len <= from.Length
    modifies to
    ensures CopiedAndSummed(to[..], old(to[..]), t, from[..], f, len, sum)
  {
    sum := 0;
    var i := 0;
    hide *;
    ghost var src, was, done := from[..], to[..], 0;
    Begun(was, t, src, f);
    while i < len
      invariant i % 4 == 0 && done == (if i < len then i else len) && from[..] == src
      invariant CopiedAndSummed(to[..], was, t, src, f, done, sum)
    {
      var n := if len - i > 4 then 4 else len - i;
      sum := AddPart(to, t, from, f, i, n, sum, was);
      done := i + n;
      i := i + 4;
    }
  }

  lemma SummedFolds(now: seq<u8>, was: seq<u8>, t: nat, src: seq<u8>, f: nat, n: nat, acc: u32)
    requires f + n <= |src| && CopiedAndSummed(now, was, t, src, f, n, acc)
    ensures Fold16(acc) == Rfc1071(Lanes(src[f..f + n]))
  {
    LongsLikeLanes(src[f..f + n]);
    AccumulatorFolds(acc, Longs(src[f..f + n]), src[f..f + n]);
  }

  /** What the whole family promises: any such accumulator folds to the RFC 1071 sum of the bytes. */
  lemma AccumulatorFolds(acc: u32, ws: seq<nat>, b: seq<u8>)
    requires acc == Canon(Total(ws), M32) && Like(Total(ws), Bytes(b))
    ensures Fold16(acc) == Rfc1071(Lanes(b))
  {
    CanonIsLike(Total(ws));
    FoldIsSum(acc);
    LikeIffSameSum(Total(ws), Bytes(b));
    LikeIffSameSum(Total(ws), acc);
    RfcIsTotal(Lanes(b));
  }

  // ---------------------------------------------------------------- out of phase

  /** As CopiedAndSummed, for an accumulator grouped in any way: it has the 16-bit sum of the bytes. */
  ghost predicate CopiedAndFolds(now: seq<u8>, was: seq<u8>, t: nat, src: seq<u8>, f: nat, n: nat, acc: u32)
    requires f + n <= |src|
  {
    Laid(now, was, t, src[f..f + n]) && Like(acc, Bytes(src[f..f + n]))
  }

  lemma NothingYet(now: seq<u8>, t: nat, src: seq<u8>, f: nat)
    requires f <= |src|
    ensures CopiedAndFolds(now, now, t, src, f, 0, 0)
  {
    assert src[f..f] == [];
    TotalFew(0, 0);
  }

  lemma AroundLike(a: u32, b: u32)
    ensures Like(Accumulate(a, b), a + b)
  {
    ModPlus(Accumulate(a, b), a + b, if a + b > M32 then -0x1_0001 else 0);
  }

  /** A further piece at an even offset, with any word that has its 16-bit sum. */
  lemma FurtherPiece(a: seq<u8>, b: seq<u8>, c: seq<u8>, t: nat, s: seq<u8>, f: nat, i: nat, n: nat, acc: u32, w: u32)
    requires f + i + n <= |s| && i % 2 == 0
    requires CopiedAndFolds(b, a, t, s, f, i, acc) && Laid(c, b, t + i, s[f + i..f + i + n])
    requires Like(w, Bytes(s[f + i..f + i + n]))
    ensures CopiedAndFolds(c, a, t, s, f, i + n, Accumulate(acc, w))
  {
    var done, next := s[f..f + i], s[f + i..f + i + n];
    hide Laid, Bytes, Accumulate;
    assert s[f..f + i + n] == done + next;
    LaidOn(a, b, c, t, done, next);
    BytesConcat(done, next);
    AroundLike(acc, w);
    LikeAdd(acc, Bytes(done), w, Bytes(next));
  }

  lemma WordBytes(b: seq<u8>)
    requires 1 <= |b| <= 2
    ensures Bytes(b) == Byte(b, 0) as int * 256 + Byte(b, 1)
  {
    FirstLane(b);
    hide Lanes;
    TotalFew(Byte(b, 0) as int * 256 + Byte(b, 1), 0);
  }

  /** One 16-bit word moved and read; with `half` only its high byte is stored and counted. */
  method MoveWord(to: array<u8>, t: nat, from: array<u8>, f: nat, half: bool) returns (w: u32)
    requires to != from && f + 2 <= from.Length && t + (if half then 1 else 2) <= to.Length
    modifies to
    ensures var n := if half then 1 else 2;
      Laid(to[..], old(to[..]), t, from[..][f..f + n]) && w == Bytes(from[..][f..f + n])
  {
    w := from[f] as int * 256 + from[f + 1];
    if half {
      to[t] := w / 256;
      w := w / 256 * 256;
      assert from[..][f..f + 1] == [from[f]];
      WordBytes([from[f]]);
    } else {
      to[t], to[t + 1] := w / 256, w % 256;
      assert from[..][f..f + 2] == [from[f], from[f + 1]];
      WordBytes([from[f], from[f + 1]]);
    }
  }

  /** The longword part, whose total also has the 16-bit sum of its bytes. */
  method MoveBulk(to: array<u8>, t: nat, from: array<u8>, f: nat, longs: nat) returns (bulk: u32)
    requires to != from && t + 4 * longs <= to.Length && f + 4 * longs <= from.Length
    modifies to
    ensures Laid(to[..], old(to[..]), t, from[..][f..f + 4 * longs]) && Like(bulk, Bytes(from[..][f..f + 4 * longs]))
  {
    bulk := CopySumLongwords(to, t, from, f, longs);
    ghost var b := from[..][f..f + 4 * longs];
    LongsLikeLanes(b);
    CanonIsLike(Total(Longs(b)));
  }

  /**
    zz_copy_payload_sum: whatever the phase of the source and the length, a word, longwords, a
    word and half a word add up to the RFC 1071 sum of the bytes copied. The last half word is
    read whole, so an odd length needs one byte of window behind it.
   */
  method CopyPayloadSum(dst: array<u8>, d: nat, src: array<u8>, s: nat, len: nat, outOfPhase: bool) returns (sum: u32)
    requires dst != src && d + len <= dst.Length && s + len + len % 2 <= src.Length
    modifies dst
    ensures CopiedAndFolds(dst[..], old(dst[..]), d, src[..], s, len, sum)
    ensures Fold16(sum) == Rfc1071(Lanes(src[..][s..s + len]))
  {
    hide *;
    ghost var was := dst[..];
    var done: nat;
    sum, done := MoveHead(dst, d, src, s, len, outOfPhase);
    sum, done := AddBulk(dst, d, src, s, len, done, sum, was);
    sum := MoveTail(dst, d, src, s, len, done, sum, was);
    FoldsToSum(dst[..], was, d, src[..], s, len, sum);
  }

  /** The word that brings an out-of-phase source to a longword address. */
  method MoveHead(dst: array<u8>, d: nat, src: array<u8>, s: nat, len: nat, outOfPhase: bool)
    returns (sum: u32, done: nat)
    requires dst != src && d + len <= dst.Length && s + len <= src.Length
    modifies dst
    ensures done == (if len >= 2 && outOfPhase then 2 else 0)
    ensures CopiedAndFolds(dst[..], old(dst[..]), d, src[..], s, done, sum)
  {
    hide *;
    done, sum := 0, 0;
    NothingYet(dst[..], d, src[..], s);
    if len >= 2 && outOfPhase {
      sum := MoveWord(dst, d, src, s, false);
      SameIsLike(sum);
      FurtherPiece(old(dst[..]), old(dst[..]), dst[..], d, src[..], s, 0, 2, 0, sum);
      AccumulateZero(sum);
      done := 2;
    }
  }

  function LongsIn(n: nat): (k: nat) { n / 4 }

  lemma LongsInFit(len: nat, at: nat)
    requires at <= len && at % 2 == 0
    ensures len - 3 <= at + 4 * LongsIn(len - at) <= len && (at + 4 * LongsIn(len - at)) % 2 == 0
  {
  }

  /** As many longwords as there are. */
  method AddBulk(dst: array<u8>, d: nat, src: array<u8>, s: nat, len: nat, at: nat, sum0: u32, ghost was: seq<u8>)
    returns (sum: u32, done: nat)
    requires dst != src && d + len <= dst.Length && s + len <= src.Length && at <= len && at % 2 == 0
    requires CopiedAndFolds(dst[..], was, d, src[..], s, at, sum0)
    modifies dst
    ensures len - 3 <= done <= len && done % 2 == 0 && CopiedAndFolds(dst[..], was, d, src[..], s, done, sum)
  {
    hide *;
    var longs := LongsIn(len - at);
    LongsInFit(len, at);
    sum, done := sum0, at;
    if longs != 0 {
      done := at + 4 * longs;
      var bulk := MoveBulk(dst, d + at, src, s + at, longs);
      FurtherPiece(was, old(dst[..]), dst[..], d, src[..], s, at, 4 * longs, sum0, bulk);
      sum := Accumulate(sum0, bulk);
    }
  }

  /** The one to three bytes behind the longwords. */
  method MoveTail(dst: array<u8>, d: nat, src: array<u8>, s: nat, len: nat, at: nat, sum0: u32, ghost was: seq<u8>)
    returns (sum: u32)
    requires dst != src && d + len <= dst.Length && s + len + len % 2 <= src.Length && len - 3 <= at <= len
    requires at % 2 == 0
    requires CopiedAndFolds(dst[..], was, d, src[..], s, at, sum0)
    modifies dst
    ensures CopiedAndFolds(dst[..], was, d, src[..], s, len, sum)
  {
    var done := at;
    sum := sum0;
    hide *;
    if done + 2 <= len {
      ghost var before := dst[..];
      var w := MoveWord(dst, d + done, src, s + done, false);
      SameIsLike(w);
      FurtherPiece(was, before, dst[..], d, src[..], s, done, 2, sum, w);
      sum := Accumulate(sum, w);
      done := done + 2;
    }
    if done < len {
      ghost var before := dst[..];
      var w := MoveWord(dst, d + done, src, s + done, true);
      SameIsLike(w);
      FurtherPiece(was, before, dst[..], d, src[..], s, done, 1, sum, w);
      sum := Accumulate(sum, w);
    }
  }

  lemma SameIsLike(w: nat)
    ensures Like(w, w)
  {
  }

  lemma AccumulateZero(w: u32)
    ensures Accumulate(0, w) == w
  {
  }

  lemma FoldsToSum(now: seq<u8>, was: seq<u8>, t: nat, src: seq<u8>, f: nat, n: nat, acc: u32)
    requires f + n <= |src| && CopiedAndFolds(now, was, t, src, f, n, acc)
    ensures Fold16(acc) == Rfc1071(Lanes(src[f..f + n]))
  {
    FoldIsSum(acc);
    LikeIffSameSum(acc, Bytes(src[f..f + n]));
    RfcIsTotal(Lanes(src[f..f + n]));
  }

  // ---------------------------------------------------------------- what the number means

  /** Congruent to the sum modulo 2^32 - 1, and zero only for all zeroes. */
  lemma AccumulatorMeans(ws: seq<u32>, acc: u32)
    ensures acc == Canon(Total(ws), M32) <==>
            acc % M32 == Total(ws) % M32 && (acc == 0 <==> forall i :: 0 <= i < |ws| ==> ws[i] == 0)
  {
    ZeroTotal(ws);
    var q := CanonQuotient(Total(ws), M32);
    assert Total(ws) % M32 == Canon(Total(ws), M32) % M32;
  }

  lemma {:induction false} ZeroTotal(ws: seq<u32>)
    ensures Total(ws) == 0 <==> forall i :: 0 <= i < |ws| ==> ws[i] == 0
  {
    if ws != [] {
      ZeroTotal(ws[..|ws| - 1]);
      assert ws == ws[..|ws| - 1] + [ws[|ws| - 1]];
    }
  }

  /** The order of the words does not matter, and sums of pieces join with one more carry. */
  lemma AccumulatorLaws(a: seq<u32>, b: seq<u32>, c: seq<u32>)
    ensures multiset(a) == multiset(c) ==> Canon(Total(a), M32) == Canon(Total(c), M32)
    ensures Accumulate(Canon(Total(a), M32), Canon(Total(b), M32)) == Canon(Total(a + b), M32)
  {
    if multiset(a) == multiset(c) {
      NatOrder(a, c);
    }
    Join(Canon(Total(a), M32), a, Canon(Total(b), M32), b);
  }

  lemma NatOrder(a: seq<u32>, c: seq<u32>)
    requires multiset(a) == multiset(c)
    ensures Total(a) == Total(c)
  {
    TotalOrder(a, c);
  }
}
