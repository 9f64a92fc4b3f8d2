/**
  Ones-complement sums as sections 1 and 2 of RFC 1071 use them: addition with end-around carry,
  and what it computes.
 */
module Ones {
  import opened Words

  const M16: nat := 0xFFFF
  const M32: nat := 0xFFFF_FFFF

  /** The end-around-carry representative of a total: zero for zero only, otherwise 1 to m. */
  function Canon(t: nat, m: nat): (r: nat)
    requires m > 0
    ensures r <= m && (r == 0 <==> t == 0)
  {
    if t == 0 then 0 else (t - 1) % m + 1
  }

  /** Ones-complement addition: a carry out of the top is added back at the bottom. */
  function AddAround(a: nat, b: nat, m: nat): (r: nat) { if a + b > m then a + b - m else a + b }

  lemma CanonUnique(t: nat, m: nat, q: nat, r: nat)
    requires m > 0 && t == q * m + r && 1 <= r <= m
    ensures Canon(t, m) == r
  {
    assert q * m >= 0;
    DivModUnique(t - 1, m, q, r - 1);
  }

  /** The quotient that goes with the representative. */
  lemma CanonQuotient(t: nat, m: nat) returns (q: nat)
    requires m > 0
    ensures t == q * m + Canon(t, m)
  {
    q := 0;
    if t > 0 {
      q := (t - 1) / m;
    }
  }

  /** Adding with end-around carry is adding the totals. */
  lemma AddAroundIsSum(a: nat, b: nat, m: nat)
    requires m > 0
    ensures AddAround(Canon(a, m), Canon(b, m), m) == Canon(a + b, m)
  {
    var p := CanonQuotient(a, m);
    var q := CanonQuotient(b, m);
    var r := Canon(a, m) + Canon(b, m);
    assert a + b == (p + q) * m + r by { assert (p + q) * m == p * m + q * m; }
    if r > m {
      assert (p + q + 1) * m == (p + q) * m + m;
      CanonUnique(a + b, m, p + q + 1, r - m);
    } else if r > 0 {
      CanonUnique(a + b, m, p + q, r);
    }
  }

  lemma CanonSmall(w: nat, m: nat)
    requires m > 0 && w <= m
    ensures Canon(w, m) == w
  {
    if w > 0 { CanonUnique(w, m, 0, w); }
  }

  // ---------------------------------------------------------------- sixteen bits

  /** Totals with the same 16-bit ones-complement sum. */
  predicate Like(a: nat, b: nat) { a % 0xFFFF == b % 0xFFFF && (a == 0 <==> b == 0) }

  lemma LikeIffSameSum(a: nat, b: nat)
    ensures Like(a, b) <==> Canon(a, M16) == Canon(b, M16)
  {
    var p := CanonQuotient(a, M16);
    var q := CanonQuotient(b, M16);
  }

  lemma ModPlus(a: int, c: int, k: int)
    requires a == c + 0xFFFF * k
    ensures a % 0xFFFF == c % 0xFFFF
  {
  }

  lemma LikeAdd(a: nat, b: nat, c: nat, d: nat)
    requires Like(a, b) && Like(c, d)
    ensures Like(a + c, b + d)
  {
    ModPlus(a + c, b + d, a / 0xFFFF - b / 0xFFFF + c / 0xFFFF - d / 0xFFFF);
  }

  lemma CanonIsLike(a: nat)
    ensures Like(a, Canon(a, M16)) && Like(a, Canon(a, M32))
  {
    var p := CanonQuotient(a, M16);
    ModPlus(a, Canon(a, M16), p);
    var q := CanonQuotient(a, M32);
    ModPlus(a, Canon(a, M32), q * 0x1_0001);
  }

  /** nd_fold16: the high half added to the low half, twice. */
  function Fold16(acc: u32): (r: u16) {
    var once := acc % 0x1_0000 + acc / 0x1_0000;
    once % 0x1_0000 + once / 0x1_0000
  }

  /** Folding keeps the 16-bit ones-complement sum, whatever wider sum it is given. */
  lemma FoldIsSum(acc: u32)
    ensures Fold16(acc) == Canon(acc, M16)
  {
    var once := acc % 0x1_0000 + acc / 0x1_0000;
    assert acc == 0x1_0000 * (acc / 0x1_0000) + acc % 0x1_0000;
    assert acc == once + 0xFFFF * (acc / 0x1_0000);
    assert Like(acc, once);
    assert Like(once, Fold16(acc));
    LikeIffSameSum(acc, once);
    LikeIffSameSum(once, Fold16(acc));
    CanonSmall(Fold16(acc), M16);
  }

  // ---------------------------------------------------------------- the sum of some bytes

  /** The big-endian 16-bit words of some bytes, an odd last byte padded with a zero low byte. */
  function Lanes(b: seq<u8>): (ls: seq<u16>) {
    if b == [] then []
    else if |b| == 1 then [b[0] as int * 256]
    else [b[0] as int * 256 + b[1]] + Lanes(b[2..])
  }

  /** The ones-complement sum of section 1 of RFC 1071, one word after the other. */
  function Rfc1071(ls: seq<u16>): (r: u16) {
    if ls == [] then 0 else AddAround(Rfc1071(ls[..|ls| - 1]), ls[|ls| - 1], M16)
  }

  function Total(ws: seq<nat>): (t: nat) { if ws == [] then 0 else Total(ws[..|ws| - 1]) + ws[|ws| - 1] }

  lemma TotalFew(x: nat, y: nat)
    ensures Total([]) == 0 && Total([x]) == x && Total([x, y]) == x + y
  {
    assert [x][..0] == [] && [x, y][..1] == [x];
    assert Total([x]) == x;
  }

  lemma {:induction false} RfcIsTotal(ls: seq<u16>)
    ensures Rfc1071(ls) == Canon(Total(ls), M16)
  {
    if ls != [] {
      RfcIsTotal(ls[..|ls| - 1]);
      CanonSmall(ls[|ls| - 1], M16);
      AddAroundIsSum(Total(ls[..|ls| - 1]), ls[|ls| - 1], M16);
    }
  }

  lemma {:induction false} TotalConcat(a: seq<nat>, b: seq<nat>)
    ensures Total(a + b) == Total(a) + Total(b)
  {
    if b == [] {
      assert a + b == a;
    } else {
      TotalConcat(a, b[..|b| - 1]);
      assert (a + b)[..|a + b| - 1] == a + b[..|b| - 1];
    }
  }

  /** Taking one element out of the middle. */
  lemma TakeOut(b: seq<nat>, k: nat) returns (rest: seq<nat>)
    requires k < |b|
    ensures multiset(b) == multiset(rest) + multiset{b[k]} && Total(b) == Total(rest) + b[k]
  {
    var u, v := b[..k], b[k + 1..];
    rest := u + v;
    assert b == u + ([b[k]] + v);
    TotalConcat(u, v);
    TotalConcat(u, [b[k]] + v);
    TotalConcat([b[k]], v);
    assert Total([b[k]]) == b[k];
  }

  /** The total does not depend on the order. */
  lemma {:induction false} TotalOrder(a: seq<nat>, b: seq<nat>)
    requires multiset(a) == multiset(b)
    ensures Total(a) == Total(b)
    decreases |a|
  {
    if a == [] {
      assert |multiset(b)| == 0;
    } else {
      var x := a[|a| - 1];
      assert x in multiset(b);
      var k :| 0 <= k < |b| && b[k] == x;
      var rest := TakeOut(b, k);
      var init := a[..|a| - 1];
      assert a == init + [x];
      assert multiset(init) == multiset(a) - multiset{x};
      TotalOrder(init, rest);
    }
  }

  lemma {:induction false} LanesFirst(b: seq<u8>)
    requires |b| >= 2
    ensures Lanes(b) == [b[0] as int * 256 + b[1]] + Lanes(b[2..])
  {
  }

  /** At an even offset the words of two pieces are the words of the whole. */
  lemma {:induction false} LanesConcat(a: seq<u8>, b: seq<u8>)
    requires |a| % 2 == 0
    ensures Lanes(a + b) == Lanes(a) + Lanes(b)
  {
    if a == [] {
      assert a + b == b;
    } else {
      LanesFirst(a);
      LanesFirst(a + b);
      hide Lanes;
      var w, x, y := [a[0] as int * 256 + a[1]], Lanes(a[2..]), Lanes(b);
      assert (a + b)[2..] == a[2..] + b;
      LanesConcat(a[2..], b);
      assert w + (x + y) == w + x + y;
    }
  }

  /** The plain total over a piece of a packet. */
  function Bytes(b: seq<u8>): (t: nat) { Total(Lanes(b)) }

  lemma BytesConcat(a: seq<u8>, b: seq<u8>)
    requires |a| % 2 == 0
    ensures Bytes(a + b) == Bytes(a) + Bytes(b)
  {
    LanesConcat(a, b);
    TotalConcat(Lanes(a), Lanes(b));
  }
}
