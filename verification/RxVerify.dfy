/**
  src/netdev/netdev_verify.c: turning the sum a frame was copied with into the VERIFIED flag of
  include/aminetxduo/anxs2ext.h, without reading the payload a second time.
 */
module RxVerify {
  import opened Words
  import opened Ones

  const VERIFIED: u8 := 2
  const TCP: u8 := 6
  const UDP: u8 := 17

  // ---------------------------------------------------------------- what the flag promises

  /** A checksum over these bytes is correct: section 1 of RFC 1071, the sum is all ones. */
  predicate ChecksOut(b: seq<u8>) { Rfc1071(Lanes(b)) == 0xFFFF }

  /** A TCP or UDP segment long enough for its header; for UDP, with its own length right and a checksum present. */
  predicate SegmentOk(seg: seq<u8>, proto: u8) {
    || (proto == 6 && |seg| >= 20)
    || (proto == 17 && |seg| >= 8 && Be16(seg, 4) == |seg| && Be16(seg, 6) != 0)
  }

  /** The pseudo-header of RFC 793 and RFC 768: addresses, protocol, length. */
  function Pseudo4(p: seq<u8>): (b: seq<u8>)
    requires 20 <= |p| < 0x1_0000
    ensures |b| == 12
  {
    p[12..20] + [0, p[9]] + TwoBytes(|p| - 20)
  }

  /** IPv4 without options, not a fragment, as long as its total length says, with both checksums correct. */
  predicate Promise4(p: seq<u8>)
    requires |p| < 0x1_0000
  {
    && |p| >= 20
    && p[0] / 16 == 4 && p[0] % 16 == 5
    && Be16(p, 2) == |p|
    && (p[6] / 32) % 2 == 0 && p[6] % 32 == 0 && p[7] == 0        // MF, fragment offset
    && ChecksOut(p[..20])
    && SegmentOk(p[20..], p[9])
    && ChecksOut(Pseudo4(p) + p[20..])
  }

  /** The pseudo-header of section 8.1 of RFC 8200: addresses, 32-bit length, next header. */
  function Pseudo6(p: seq<u8>): (b: seq<u8>)
    requires 40 <= |p| < 0x1_0000
    ensures |b| == 40
  {
    p[8..40] + [0, 0] + TwoBytes(|p| - 40) + [0, 0, 0, p[6]]
  }

  /** IPv6 with the transport header first, as long as its payload length says, with a correct transport checksum. */
  predicate Promise6(p: seq<u8>)
    requires |p| < 0x1_0000
  {
    && |p| >= 40
    && p[0] / 16 == 6
    && Be16(p, 4) + 40 == |p|
    && SegmentOk(p[40..], p[6])
    && ChecksOut(Pseudo6(p) + p[40..])
  }

  // ---------------------------------------------------------------- the arithmetic

  lemma FullIff(t: nat)
    ensures Canon(t, M16) == 0xFFFF <==> t > 0 && t % 0xFFFF == 0
  {
    var q := CanonQuotient(t, M16);
    ModPlus(t, Canon(t, M16), q);
  }

  lemma FoldFullIff(acc: u32)
    ensures Fold16(acc) == 0xFFFF <==> acc > 0 && acc % 0xFFFF == 0
  {
    FoldIsSum(acc);
    FullIff(acc);
  }

  lemma ChecksOutIff(b: seq<u8>)
    ensures ChecksOut(b) <==> Bytes(b) > 0 && Bytes(b) % 0xFFFF == 0
  {
    RfcIsTotal(Lanes(b));
    FullIff(Bytes(b));
  }

  /** The folded running sum is, for 16-bit purposes, the total of the bytes it was taken over. */
  lemma SumIsBytes(sum: u32, p: seq<u8>)
    requires Fold16(sum) == Rfc1071(Lanes(p))
    ensures Like(Fold16(sum), Bytes(p))
  {
    RfcIsTotal(Lanes(p));
    CanonIsLike(Bytes(p));
  }

  lemma {:induction false} WordsOf(p: seq<u8>, i: nat, n: nat)
    requires i + n <= |p| && n % 2 == 0
    ensures n == 0 ==> Bytes(p[i..i + n]) == 0
    ensures n >= 2 ==> Bytes(p[i..i + n]) == Be16(p, i) + Bytes(p[i + 2..i + n])
  {
    if n == 0 {
      assert p[i..i] == [];
      TotalFew(0, 0);
    } else {
      var first, rest := p[i..i + 2], p[i + 2..i + n];
      assert p[i..i + n] == first + rest;
      BytesConcat(first, rest);
      PairBytes(p[i], p[i + 1]);
      assert first == [p[i], p[i + 1]];
    }
  }

  lemma PairBytes(a: u8, b: u8)
    ensures Bytes([a, b]) == a as int * 256 + b
  {
    assert Lanes([a, b]) == [a as int * 256 + b] by {
      LanesFirst([a, b]);
      assert [a, b][2..] == [];
    }
    TotalFew(a as int * 256 + b, 0);
  }

  /** What the code adds for the IPv4 pseudo-header. */
  lemma Pseudo4Total(p: seq<u8>)
    requires 20 <= |p| < 0x1_0000
    ensures Bytes(Pseudo4(p)) == Be16(p, 12) + Be16(p, 14) + Be16(p, 16) + Be16(p, 18) + p[9] + (|p| - 20)
  {
    hide Lanes, Total, Bytes;
    var n: u16 := |p| - 20;
    BytesConcat(p[12..20] + [0, p[9]], TwoBytes(n));
    BytesConcat(p[12..20], [0, p[9]]);
    WordsOf(p, 12, 8);
    WordsOf(p, 14, 6);
    WordsOf(p, 16, 4);
    WordsOf(p, 18, 2);
    WordsOf(p, 20, 0);
    PairBytes(0, p[9]);
    PairBytes(n / 256, n % 256);
  }

  /** With a correct header checksum the header counts for nothing, so the frame's own sum stands for the segment's. */
  lemma Transport4(p: seq<u8>, sum: u32, acc: nat)
    requires 20 <= |p| < 0x1_0000 && p[9] > 0 && ChecksOut(p[..20]) && Fold16(sum) == Rfc1071(Lanes(p))
    requires acc == Fold16(sum) + Bytes(Pseudo4(p))
    ensures acc > 0 && acc % 0xFFFF == 0 <==> ChecksOut(Pseudo4(p) + p[20..])
  {
    hide Bytes, Lanes, Rfc1071, ChecksOut, Fold16, Pseudo4;
    SumIsBytes(sum, p);
    ChecksOutIff(p[..20]);
    ChecksOutIff(Pseudo4(p) + p[20..]);
    assert p == p[..20] + p[20..];
    BytesConcat(p[..20], p[20..]);
    BytesConcat(Pseudo4(p), p[20..]);
    Pseudo4Total(p);
    WithoutHeader(Fold16(sum), Bytes(p[..20]), Bytes(p[20..]), Bytes(Pseudo4(p)));
  }

  lemma WithoutHeader(f: nat, h: nat, s: nat, a: nat)
    requires f % 0xFFFF == (h + s) % 0xFFFF && h % 0xFFFF == 0
    ensures (f + a) % 0xFFFF == (a + s) % 0xFFFF
  {
    Shift(f, h + s, a);
    Shift(h, 0, s + a);
  }

  lemma Shift(x: nat, y: nat, a: nat)
    requires x % 0xFFFF == y % 0xFFFF
    ensures (x + a) % 0xFFFF == (y + a) % 0xFFFF
  {
    ModPlus(x + a, y + a, x / 0xFFFF - y / 0xFFFF);
  }

  // ---------------------------------------------------------------- netdev_rx_verify4

  /** The sum of the twenty header bytes, and its test. */
  method HeaderChecks(p: seq<u8>) returns (ok: bool)
    requires |p| >= 20
    ensures ok == ChecksOut(p[..20])
  {
    var acc: u32 := 0;
    var i := 0;
    ghost var h := p[..20];
    WordsOf(h, 0, 0);
    assert h[..0] == h[0..0];
    while i < 20
      invariant 0 <= i <= 20 && i % 2 == 0 && acc <= i * 0x1_0000 && acc == Bytes(h[..i])
    {
      hide Bytes;
      assert h[..i + 2] == h[..i] + h[i..i + 2];
      BytesConcat(h[..i], h[i..i + 2]);
      WordsOf(h, i, 2);
      WordsOf(h, i + 2, 0);
      acc := acc + Be16(p, i);
      i := i + 2;
    }
    assert h[..20] == p[..20];
    FoldFullIff(acc);
    ChecksOutIff(p[..20]);
    ok := Fold16(acc) == 0xFFFF;
  }

  method RxVerify4(p: seq<u8>, sum: u32) returns (flag: u8)
    requires |p| < 0x1_0000 && Fold16(sum) == Rfc1071(Lanes(p))
    ensures flag == if Promise4(p) then 2 else 0
  {
    hide ChecksOut, Bytes, Lanes, Rfc1071, Fold16, Pseudo4;
    flag := 0;
    if |p| < 20 || p[0] != 0x45 {
      return;
    }
    var total := Be16(p, 2);
    if total != |p| || total < 20 {
      return;
    }
    if p[6] % 64 != 0 || p[7] != 0 {        // & 0x3f
      return;
    }
    var proto := p[9];
    if proto != TCP && proto != UDP {
      return;
    }
    var header := HeaderChecks(p);
    if !header {
      return;
    }
    var tlen := total - 20;
    if proto == UDP {
      if tlen < 8 || Be16(p, 24) != tlen {
        return;
      }
      if Be16(p, 26) == 0 {
        return;
      }
    } else if tlen < 20 {
      return;
    }
    var acc: u32 := Fold16(sum) + Be16(p, 12) + Be16(p, 14) + Be16(p, 16) + Be16(p, 18) + proto + tlen;
    Pseudo4Total(p);
    Transport4(p, sum, acc);
    FoldFullIff(acc);
    if Fold16(acc) != 0xFFFF {
      return;
    }
    flag := VERIFIED;
  }

  // ---------------------------------------------------------------- netdev_rx_verify6

  /** What the code adds for the IPv6 pseudo-header, the addresses apart. */
  lemma Pseudo6Total(p: seq<u8>)
    requires 40 <= |p| < 0x1_0000
    ensures Bytes(Pseudo6(p)) == Bytes(p[8..40]) + (|p| - 40) + p[6]
  {
    hide Lanes, Total, Bytes;
    var n: u16 := |p| - 40;
    var a := p[8..40];
    assert Pseudo6(p) == a + ([0, 0] + (TwoBytes(n) + ([0, 0] + [0, p[6]])));
    BytesConcat(a, [0, 0] + (TwoBytes(n) + ([0, 0] + [0, p[6]])));
    BytesConcat([0, 0], TwoBytes(n) + ([0, 0] + [0, p[6]]));
    BytesConcat(TwoBytes(n), [0, 0] + [0, p[6]]);
    BytesConcat([0, 0], [0, p[6]]);
    PairBytes(0, 0);
    PairBytes(0, p[6]);
    PairBytes(n / 256, n % 256);
  }

  /** Taking the first eight bytes out again by adding their complement leaves addresses and segment. */
  lemma Transport6(p: seq<u8>, sum: u32, head: u16, acc: nat)
    requires 40 <= |p| < 0x1_0000 && p[6] > 0 && Fold16(sum) == Rfc1071(Lanes(p))
    requires Like(head, Bytes(p[..8]))
    requires acc == Fold16(sum) + (0xFFFF - head) + (|p| - 40) + p[6]
    ensures acc > 0 && acc % 0xFFFF == 0 <==> ChecksOut(Pseudo6(p) + p[40..])
  {
    hide Bytes, Lanes, Rfc1071, ChecksOut, Fold16, Pseudo6;
    SumIsBytes(sum, p);
    ChecksOutIff(Pseudo6(p) + p[40..]);
    assert p == p[..8] + (p[8..40] + p[40..]);
    BytesConcat(p[..8], p[8..40] + p[40..]);
    BytesConcat(p[8..40], p[40..]);
    BytesConcat(Pseudo6(p), p[40..]);
    Pseudo6Total(p);
    WithoutFront(Fold16(sum), Bytes(p[..8]), head, Bytes(p[8..40]) + Bytes(p[40..]), |p| - 40 + p[6]);
  }

  lemma WithoutFront(f: nat, h: nat, head: nat, s: nat, r: nat)
    requires f % 0xFFFF == (h + s) % 0xFFFF && head % 0xFFFF == h % 0xFFFF && head <= 0xFFFF
    ensures (f + (0xFFFF - head) + r) % 0xFFFF == (s + r) % 0xFFFF
  {
    Shift(f, h + s, 0xFFFF - head + r);
    Shift(h, head, s + (0xFFFF - head) + r);
    ModPlus(s + r + 0xFFFF, s + r, 1);
  }

  method RxVerify6(p: seq<u8>, sum: u32) returns (flag: u8)
    requires |p| < 0x1_0000 && Fold16(sum) == Rfc1071(Lanes(p))
    ensures flag == if Promise6(p) then 2 else 0
  {
    hide ChecksOut, Bytes, Lanes, Rfc1071, Fold16, Pseudo6, Like;
    flag := 0;
    if |p| < 40 || p[0] / 16 != 6 {
      return;
    }
    var tlen := Be16(p, 4);
    if tlen as int + 40 != |p| {
      return;
    }
    var nh := p[6];
    if nh != TCP && nh != UDP {
      return;
    }
    if nh == UDP {
      if tlen < 8 || Be16(p, 44) != tlen {
        return;
      }
      if Be16(p, 46) == 0 {
        return;
      }
    } else if tlen < 20 {
      return;
    }
    var first: u32 := Be16(p, 0) + Be16(p, 2) + Be16(p, 4) + Be16(p, 6);
    var head := Fold16(first);
    FirstEight(p);
    var acc: u32 := Fold16(sum) + (0xFFFF - head) + tlen + nh;
    Transport6(p, sum, head, acc);
    FoldFullIff(acc);
    if Fold16(acc) != 0xFFFF {
      return;
    }
    flag := VERIFIED;
  }

  lemma LikeBack(a: nat, b: nat)
    requires Like(a, b)
    ensures Like(b, a)
  {
  }

  lemma FirstEight(p: seq<u8>)
    requires |p| >= 8
    ensures Like(Fold16(Be16(p, 0) + Be16(p, 2) + Be16(p, 4) + Be16(p, 6)), Bytes(p[..8]))
  {
    hide Lanes, Total, Bytes, Like, Fold16, Canon;
    WordsOf(p, 0, 8);
    WordsOf(p, 2, 6);
    WordsOf(p, 4, 4);
    WordsOf(p, 6, 2);
    WordsOf(p, 8, 0);
    assert p[..8] == p[0..8];
    FoldIsSum(Be16(p, 0) + Be16(p, 2) + Be16(p, 4) + Be16(p, 6));
    CanonIsLike(Bytes(p[..8]));
    LikeBack(Bytes(p[..8]), Canon(Bytes(p[..8]), M16));
  }

  /**
    netdev_rx_verify: given any accumulator that folds to the sum of the packet, the flag is set
    exactly when the packet is one the flag's promise describes; no byte past the packet is read.
   */
  method RxVerify(p: seq<u8>, sum: u32) returns (flag: u8)
    requires |p| < 0x1_0000 && Fold16(sum) == Rfc1071(Lanes(p))
    ensures flag == if Promise4(p) || Promise6(p) then 2 else 0
  {
    hide ChecksOut, Lanes, Rfc1071, Fold16, Pseudo4, Pseudo6, SegmentOk;
    if |p| == 0 {
      return 0;
    }
    if p[0] / 16 == 4 {
      flag := RxVerify4(p, sum);
    } else if p[0] / 16 == 6 {
      flag := RxVerify6(p, sum);
    } else {
      flag := 0;
    }
  }
}
