/**
  Machine words as bounded integers, bytes of C strings, and a value that may be missing: what
  the C and Python sources do with `unsigned`, `char *` and failure.
 */
module Words {

  datatype Option<+T> = None | Some(value: T)

  type u8 = x: int | 0 <= x < 0x100
  type u16 = x: int | 0 <= x < 0x1_0000
  type u32 = x: int | 0 <= x < 0x1_0000_0000

  const TWO32: int := 0x1_0000_0000

  /** A byte of a C string. */
  type CByte = b: int | 0 < b < 256 witness 1

  /** The byte at `i`, or the terminating NUL. */
  function At(p: seq<CByte>, i: nat): (b: int) { if i < |p| then p[i] else 0 }

  function Pow2(n: nat): (r: nat)
    ensures r >= 1
  {
    if n == 0 then 1 else 2 * Pow2(n - 1)
  }

  /** Bitwise and, one bit at a time. */
  function And(a: nat, b: nat): (r: nat)
    ensures r <= a && r <= b
  {
    if a == 0 || b == 0 then 0
    else 2 * And(a / 2, b / 2) + (if a % 2 == 1 && b % 2 == 1 then 1 else 0)
  }

  function Or(a: nat, b: nat): (r: nat)
    ensures r >= a && r >= b && r <= a + b
  {
    if a == 0 then b else if b == 0 then a
    else 2 * Or(a / 2, b / 2) + (if a % 2 == 1 || b % 2 == 1 then 1 else 0)
  }

  /** Masking with n low bits is the remainder. */
  lemma {:induction false} AndLowMask(a: nat, n: nat)
    ensures And(a, Pow2(n) - 1) == a % Pow2(n)
  {
    assert And(a, 0) == 0;
    hide And;
    if n == 0 {
      assert Pow2(0) == 1 && a % 1 == 0;
    } else {
      var p, q := Pow2(n - 1), Pow2(n);
      assert q == 2 * p;
      hide Pow2;
      AndLowMask(a / 2, n - 1);
      MaskStep(a, p, q);
    }
  }

  lemma MaskStep(a: nat, p: nat, q: nat)
    requires p >= 1 && q == 2 * p && And(a / 2, p - 1) == (a / 2) % p
    ensures And(a, q - 1) == a % q
  {
    hide And;
    AndOdd(a, p - 1);
    HalfMod(a, p);
  }

  lemma {:induction false} AndOdd(a: nat, m: nat)
    ensures And(a, 2 * m + 1) == 2 * And(a / 2, m) + a % 2
  {
    assert (2 * m + 1) / 2 == m && (2 * m + 1) % 2 == 1;
  }

  lemma HalfMod(a: nat, p: nat)
    requires p >= 1
    ensures a % (2 * p) == 2 * ((a / 2) % p) + a % 2
  {
    var q, r := (a / 2) / p, (a / 2) % p;
    assert a / 2 == p * q + r;
    assert a == 2 * (a / 2) + a % 2;
    assert a == (2 * p) * q + (2 * r + a % 2);
    DivModUnique(a, 2 * p, q, 2 * r + a % 2);
  }

  lemma DivModUnique(a: int, d: int, q: int, r: int)
    requires d > 0 && a == d * q + r && 0 <= r < d
    ensures a / d == q && a % d == r
  {
    var e := q - a / d;
    assert d * e == a % d - r;
    assert e >= 1 ==> d * e >= d;
    assert e <= -1 ==> d * e <= -d;
  }

  /** Two words of n bits combine into a word of n bits. */
  lemma {:induction false} OrBound(a: nat, b: nat, n: nat)
    requires a < Pow2(n) && b < Pow2(n)
    ensures Or(a, b) < Pow2(n)
  {
    if n > 0 && a > 0 && b > 0 {
      OrBound(a / 2, b / 2, n - 1);
    }
  }

  // ---------------------------------------------------------------- bit by bit

  function Bit(m: nat, k: nat): (b: nat)
    decreases k
  {
    if k == 0 then m % 2 else Bit(m / 2, k - 1)
  }

  predicate HasBit(m: nat, k: nat) { Bit(m, k) == 1 }

  lemma {:induction false} BitZero(k: nat)
    ensures !HasBit(0, k)
    decreases k
  {
    if k > 0 { BitZero(k - 1); }
  }

  lemma {:induction false} AndBit(a: nat, b: nat, k: nat)
    ensures HasBit(And(a, b), k) <==> HasBit(a, k) && HasBit(b, k)
    decreases k
  {
    if a == 0 || b == 0 {
      BitZero(k);
    } else {
      var m := And(a, b);
      assert m / 2 == And(a / 2, b / 2) && (m % 2 == 1 <==> a % 2 == 1 && b % 2 == 1);
      hide And;
      if k > 0 { AndBit(a / 2, b / 2, k - 1); }
    }
  }

  lemma {:induction false} OrBit(a: nat, b: nat, k: nat)
    ensures HasBit(Or(a, b), k) <==> HasBit(a, k) || HasBit(b, k)
    decreases k
  {
    if a == 0 || b == 0 {
      BitZero(k);
    } else {
      var m := Or(a, b);
      assert m / 2 == Or(a / 2, b / 2) && (m % 2 == 1 <==> a % 2 == 1 || b % 2 == 1);
      hide Or;
      if k > 0 { OrBit(a / 2, b / 2, k - 1); }
    }
  }

  /** Bitwise exclusive or, one bit at a time. */
  function Xor(a: nat, b: nat): (r: nat) {
    if a == 0 then b else if b == 0 then a else 2 * Xor(a / 2, b / 2) + (a % 2 + b % 2) % 2
  }

  lemma {:induction false} XorBound(a: nat, b: nat, n: nat)
    requires a < Pow2(n) && b < Pow2(n)
    ensures Xor(a, b) < Pow2(n)
  {
    if n > 0 && a > 0 && b > 0 {
      XorBound(a / 2, b / 2, n - 1);
    }
  }

  lemma {:induction false} XorBit(a: nat, b: nat, k: nat)
    ensures HasBit(Xor(a, b), k) <==> HasBit(a, k) != HasBit(b, k)
    decreases k
  {
    if a == 0 || b == 0 {
      BitZero(k);
    } else {
      var m := Xor(a, b);
      assert m / 2 == Xor(a / 2, b / 2) && (m % 2 == 1 <==> a % 2 != b % 2);
      hide Xor;
      if k > 0 { XorBit(a / 2, b / 2, k - 1); }
    }
  }

  /** Numbers of n bits with the same bits are the same. */
  lemma {:induction false} BitsDetermine(a: nat, b: nat, n: nat)
    requires a < Pow2(n) && b < Pow2(n) && forall k: nat :: k < n ==> (HasBit(a, k) <==> HasBit(b, k))
    ensures a == b
    decreases n
  {
    if n > 0 {
      assert HasBit(a, 0) <==> HasBit(b, 0);
      forall k: nat | k < n - 1 ensures HasBit(a / 2, k) <==> HasBit(b / 2, k) {
        assert HasBit(a, k + 1) <==> HasBit(b, k + 1);
      }
      BitsDetermine(a / 2, b / 2, n - 1);
    }
  }

  /** A word with a bit in common with another is one whose And with it is not zero. */
  lemma {:induction false} SomeBit(m: nat, n: nat)
    requires m < Pow2(n)
    ensures m != 0 <==> exists k: nat :: k < n && HasBit(m, k)
    decreases n
  {
    if m == 0 {
      forall k: nat ensures !HasBit(0, k) { BitZero(k); }
    } else if m % 2 == 1 {
      assert n > 0 && HasBit(m, 0);
    } else {
      SomeBit(m / 2, n - 1);
      var k: nat :| k < n - 1 && HasBit(m / 2, k);
      assert HasBit(m, k + 1);
    }
  }

  /** Shifted up: the bits move, and zeroes come in below. */
  lemma {:induction false} ShiftUpBit(a: nat, s: nat, k: nat)
    ensures HasBit(a * Pow2(s), k) <==> k >= s && HasBit(a, k - s)
    decreases s
  {
    if s > 0 {
      var half := a * Pow2(s - 1);
      assert a * Pow2(s) == 2 * half by { assert Pow2(s) == 2 * Pow2(s - 1); }
      assert (2 * half) / 2 == half && (2 * half) % 2 == 0;
      if k > 0 { ShiftUpBit(a, s - 1, k - 1); }
    }
  }

  /** Shifted down: the bits move, and the lowest go. */
  lemma {:induction false} ShiftDownBit(a: nat, s: nat, k: nat)
    ensures HasBit(Quotient(a, Pow2(s)), k) <==> HasBit(a, k + s)
    decreases s
  {
    if s > 0 {
      HalfDiv(a, Pow2(s - 1));
      ShiftDownBit(a / 2, s - 1, k);
    }
  }

  /** Division of a word, never larger than the word. */
  function Quotient(a: nat, b: nat): (q: nat)
    requires b > 0
    ensures q <= a
  {
    QuotientBound(a, b);
    a / b
  }

  lemma QuotientBound(a: nat, b: nat)
    requires b > 0
    ensures 0 <= a / b <= a
  {
    Times(b, a / b, a % b, a);
  }

  lemma Times(b: int, q: int, r: int, a: int)
    requires b > 0 && 0 <= r < b && a >= 0 && a == b * q + r
    ensures 0 <= q <= a
  {
    assert q < 0 ==> b * q <= -b;
    assert q >= 0 ==> b * q >= q;
  }

  lemma HalfDiv(a: nat, p: nat)
    requires p >= 1
    ensures a / (2 * p) == (a / 2) / p
  {
    var q, r := (a / 2) / p, (a / 2) % p;
    assert a == (2 * p) * q + (2 * r + a % 2);
    DivModUnique(a, 2 * p, q, 2 * r + a % 2);
  }

  /** A word keeps its low bits. */
  lemma {:induction false} LowBit(a: nat, n: nat, k: nat)
    requires k < n
    ensures HasBit(a % Pow2(n), k) <==> HasBit(a, k)
    decreases n
  {
    var p := Pow2(n - 1);
    HalfMod(a, p);
    var low := a % Pow2(n);
    assert low == 2 * ((a / 2) % p) + a % 2;
    assert low / 2 == (a / 2) % p && low % 2 == a % 2;
    if k > 0 { LowBit(a / 2, n - 1, k - 1); }
  }

  lemma Pow2Is32()
    ensures Pow2(4) == 16 && Pow2(8) == 256 && Pow2(13) == 8192 && Pow2(16) == 0x1_0000 && Pow2(32) == TWO32
  {
    assert Pow2(4) == 16;
    assert Pow2(8) == 16 * Pow2(4);
    assert Pow2(12) == 16 * Pow2(8);
    assert Pow2(13) == 2 * Pow2(12);
    assert Pow2(16) == 8 * Pow2(13);
    assert Pow2(20) == 16 * Pow2(16);
    assert Pow2(24) == 16 * Pow2(20);
    assert Pow2(28) == 16 * Pow2(24);
    assert Pow2(32) == 16 * Pow2(28);
  }

  function And32(a: u32, b: u32): (r: u32)
    ensures r <= a && r <= b
  {
    And(a, b)
  }

  function Or32(a: u32, b: u32): (r: u32) {
    Pow2Is32(); OrBound(a, b, 32);
    Or(a, b)
  }

  /** Big-endian value of a run of bytes. */
  function BigEndian(s: seq<u8>): (r: nat) {
    if s == [] then 0 else BigEndian(s[..|s| - 1]) * 256 + s[|s| - 1]
  }

  lemma BigEndianSmall(s: seq<u8>)
    requires |s| <= 4
    ensures BigEndian(s) < TWO32
    ensures |s| <= 2 ==> BigEndian(s) < 0x1_0000
    ensures |s| == 1 ==> BigEndian(s) == s[0]
    ensures |s| == 2 ==> BigEndian(s) == s[0] as int * 256 + s[1]
    ensures |s| == 4 ==> BigEndian(s) == ((s[0] as int * 256 + s[1]) * 256 + s[2]) * 256 + s[3]
  {
    if |s| > 0 {
      BigEndianSmall(s[..|s| - 1]);
      if |s| == 3 { BigEndianSmall(s[..2]); assert s[..2] == s[..|s| - 1]; }
      if |s| == 4 {
        assert s[..3][..2] == s[..2];
        assert s[..3][2] == s[2];
        BigEndianSmall(s[..2]);
        assert BigEndian(s[..3]) == BigEndian(s[..2]) * 256 + s[2];
      }
    }
  }

  // ---------------------------------------------------------------- numbers in network order

  function Be16(b: seq<u8>, i: nat): (w: u16)
    requires i + 2 <= |b|
  {
    b[i] as int * 256 + b[i + 1]
  }

  function Be32(b: seq<u8>, i: nat): (w: u32)
    requires i + 4 <= |b|
  {
    ((b[i] as int * 256 + b[i + 1]) * 256 + b[i + 2]) * 256 + b[i + 3]
  }

  function TwoBytes(n: u16): (b: seq<u8>)
    ensures |b| == 2
  {
    [n / 256, n % 256]
  }

  function FourBytes(n: u32): (b: seq<u8>)
    ensures |b| == 4
  {
    TwoBytes(n / 0x1_0000) + TwoBytes(n % 0x1_0000)
  }

  lemma FourBytesInverse(a: u8, b: u8, c: u8, d: u8, n: u32)
    ensures n == ((a as int * 256 + b) * 256 + c) * 256 + d <==> FourBytes(n) == [a, b, c, d]
  {
    var hi, lo := a as int * 256 + b, c as int * 256 + d;
    assert ((a as int * 256 + b) * 256 + c) * 256 + d == hi * 0x1_0000 + lo;
    assert n == hi * 0x1_0000 + lo <==> n / 0x1_0000 == hi && n % 0x1_0000 == lo;
    assert n / 0x1_0000 == hi <==> TwoBytes(n / 0x1_0000) == [a, b];
    assert n % 0x1_0000 == lo <==> TwoBytes(n % 0x1_0000) == [c, d];
    assert [a, b, c, d] == [a, b] + [c, d];
    assert FourBytes(n)[..2] == TwoBytes(n / 0x1_0000) && FourBytes(n)[2..] == TwoBytes(n % 0x1_0000);
    assert [a, b, c, d][..2] == [a, b] && [a, b, c, d][2..] == [c, d];
  }
}
