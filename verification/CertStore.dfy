/**
  The certificate store: tools/mkcertstore.py writes it, src/tlslib/tls_store.c opens it and
  fetches one root from it by key.
 */
module CertStore {
  import opened Words
  import CertDer

  const MAGIC: u32 := 0x41435331           // "ACS1"
  const HEADER := 16
  const ENTRY := 12
  const MAX_DER := 2560
  const MAX_ROOTS := 1024

  // ---------------------------------------------------------------- keys

  const FNV_OFFSET: u32 := 2166136261
  const FNV_PRIME: u32 := 16777619

  /** The FNV-1a state after some bytes. */
  function Hash(data: seq<u8>): (h: u32) {
    if data == [] then FNV_OFFSET
    else
      Pow2Is32(); XorBound(Hash(data[..|data| - 1]), data[|data| - 1], 32);
      (Xor(Hash(data[..|data| - 1]), data[|data| - 1]) * FNV_PRIME) % TWO32
  }

  /** fnv1a() and tls_fnv1a(): zero is kept for "no key". */
  method Fnv1a(data: seq<u8>) returns (h: u32)
    ensures h == KeyOf(data) && h == (if Hash(data) == 0 then 0x0100_0193 else Hash(data))
  {
    h := FNV_OFFSET;
    for i := 0 to |data|
      invariant h == Hash(data[..i])
    {
      Pow2Is32();
      XorBound(h, data[i], 32);
      assert data[..i + 1][..i] == data[..i];
      h := Xor(h, data[i]);
      h := (h as int * FNV_PRIME) % TWO32;
    }
    assert data[..|data|] == data;
    if h == 0 {
      h := FNV_PRIME;
    }
  }

  function KeyOf(data: seq<u8>): (k: u32) { if Hash(data) == 0 then FNV_PRIME else Hash(data) }

  const PRIME_INVERSE: u32 := 899433627      // of FNV_PRIME, modulo 2^32

  /** Multiplying by the prime can be undone. */
  lemma PrimeUndone(x: u32)
    ensures (x * FNV_PRIME % TWO32) * PRIME_INVERSE % TWO32 == x
  {
    var t := x * FNV_PRIME / TWO32;
    var r := x * FNV_PRIME % TWO32;
    assert r == x * FNV_PRIME - t * TWO32;
    assert FNV_PRIME * PRIME_INVERSE == 1 + 3513497 * TWO32;
    assert r * PRIME_INVERSE == x * (FNV_PRIME * PRIME_INVERSE) - t * PRIME_INVERSE * TWO32;
    assert x * (1 + 3513497 * TWO32) == x + x * 3513497 * TWO32;
    DivModUnique(r * PRIME_INVERSE, TWO32, x * 3513497 - t * PRIME_INVERSE, x);
  }

  lemma {:induction false} HashSnoc(data: seq<u8>, b: u8)
    ensures Hash([]) == 0x811C9DC5 && Xor(Hash(data), b) < TWO32
    ensures Hash(data + [b]) == Xor(Hash(data), b) * FNV_PRIME % TWO32
  {
    var s := data + [b];
    assert s[..|s| - 1] == data && s[|s| - 1] == b;
    Pow2Is32();
    XorBound(Hash(data), b, 32);
  }

  /**
    The state of FNV-1a, byte by byte: it begins at 0x811C9DC5, and undoing the last multiplication
    by 0x01000193 leaves the state before it with the last byte exclusive-ored in, bit by bit.
   */
  lemma HashMeans(data: seq<u8>, b: u8)
    ensures Hash([]) == 0x811C9DC5 && 0x0100_0193 * PRIME_INVERSE % TWO32 == 1
    ensures var x := Hash(data + [b]) * PRIME_INVERSE % TWO32;
      forall k: nat :: k < 32 ==> (HasBit(x, k) <==> HasBit(Hash(data), k) != HasBit(b, k))
  {
    HashSnoc(data, b);
    hide Hash, Xor, Bit;
    var h := Hash(data);
    var x: u32 := Xor(h, b);
    PrimeUndone(x);
    forall k: nat | k < 32 ensures HasBit(x, k) <==> HasBit(h, k) != HasBit(b, k) {
      XorBit(h, b, k);
    }
  }

  // ---------------------------------------------------------------- collecting the roots

  /** The key of a certificate that can be indexed: not too long, and with a subject to be found. */
  function Key(der: seq<u8>): (k: Option<u32>)
    ensures k.Some? ==> k.value != 0
  {
    if |der| > 2560 || CertDer.Subject(der).None? then None else Some(KeyOf(CertDer.Subject(der).value))
  }

  /** The dictionary main() builds: the first certificate of each key. */
  function EntriesOf(ders: seq<seq<u8>>): (e: map<u32, seq<u8>>) {
    if ders == [] then map[]
    else
      var e, d := EntriesOf(ders[..|ders| - 1]), ders[|ders| - 1];
      if Key(d).Some? && Key(d).value !in e then e[Key(d).value := d] else e
  }

  predicate AllUsable(ders: seq<seq<u8>>) { forall i :: 0 <= i < |ders| ==> Key(ders[i]).Some? }

  /** main()'s loop: the dictionary, and whether the store would be partial. */
  method Collect(ders: seq<seq<u8>>) returns (entries: map<u32, seq<u8>>, partial: bool)
    ensures entries == EntriesOf(ders) && partial == !AllUsable(ders)
  {
    entries := map[];
    var skippedBig, skippedBad := 0, 0;
    hide Key;
    for i := 0 to |ders|
      invariant entries == EntriesOf(ders[..i])
      invariant skippedBig >= 0 && skippedBad >= 0 && (skippedBig + skippedBad > 0 <==> !AllUsable(ders[..i]))
    {
      var der := ders[i];
      assert ders[..i + 1] == ders[..i] + [der] && ders[..i + 1][..i] == ders[..i];
      var outcome := Classify(der);
      if outcome == Big {
        skippedBig := skippedBig + 1;
      } else if outcome == Bad {
        skippedBad := skippedBad + 1;
      } else if outcome.key !in entries {
        entries := entries[outcome.key := der];
      }
    }
    assert ders[..|ders|] == ders;
    partial := skippedBig > 0 || skippedBad > 0;
  }

  datatype Outcome = Big | Bad | Good(key: u32)

  method Classify(der: seq<u8>) returns (o: Outcome)
    ensures Key(der) == if o.Good? then Some(o.key) else None
  {
    if |der| > MAX_DER {
      return Big;
    }
    var name := CertDer.SubjectNameDer(der);
    if name.None? {
      return Bad;
    }
    var key := Fnv1a(name.value);
    return Good(key);
  }

  ghost predicate Has(ders: seq<seq<u8>>, k: u32, d: seq<u8>) { d in ders && Key(d) == Some(k) }

  /** Two different certificates under one key. */
  ghost predicate Conflict(ders: seq<seq<u8>>) {
    exists k, d, d' :: Has(ders, k, d) && Has(ders, k, d') && d != d'
  }

  lemma {:induction false} EntriesMean(ders: seq<seq<u8>>, k: u32)
    ensures k in EntriesOf(ders) <==> exists d :: Has(ders, k, d)
    ensures k in EntriesOf(ders) ==> Has(ders, k, EntriesOf(ders)[k]) && k != 0
  {
    hide Key;
    if ders != [] {
      var init, last := ders[..|ders| - 1], ders[|ders| - 1];
      assert ders == init + [last];
      EntriesMean(init, k);
      forall d | Has(init, k, d) ensures Has(ders, k, d) {}
      if Key(last) == Some(k) {
        assert Has(ders, k, last);
      }
      forall d | Has(ders, k, d) ensures d == last || Has(init, k, d) {}
    }
  }

  /** The first certificate of the bundle with this key. */
  predicate FirstUnder(ders: seq<seq<u8>>, k: u32, i: nat) {
    i < |ders| && Key(ders[i]) == Some(k) && forall j :: 0 <= j < i ==> Key(ders[j]) != Some(k)
  }

  lemma {:induction false} EntriesAreFirst(ders: seq<seq<u8>>, k: u32, i: nat)
    requires FirstUnder(ders, k, i)
    ensures k in EntriesOf(ders) && EntriesOf(ders)[k] == ders[i]
    decreases |ders|
  {
    hide Key;
    var n := |ders| - 1;
    if i < n {
      EntriesAreFirst(ders[..n], k, i);
    } else {
      EntriesMean(ders[..n], k);
    }
  }

  /** Without conflicts only the set of certificates matters. */
  lemma OrderFree(a: seq<seq<u8>>, b: seq<seq<u8>>)
    requires !Conflict(a) && forall d :: d in a <==> d in b
    ensures EntriesOf(a) == EntriesOf(b)
  {
    hide Key, EntriesOf;
    forall k ensures k in EntriesOf(a) <==> k in EntriesOf(b) {
      EntriesMean(a, k);
      EntriesMean(b, k);
      forall d ensures Has(a, k, d) <==> Has(b, k, d) {}
    }
    forall k | k in EntriesOf(a) ensures EntriesOf(a)[k] == EntriesOf(b)[k] {
      EntriesMean(a, k);
      EntriesMean(b, k);
      assert Has(a, k, EntriesOf(b)[k]);
    }
  }

  lemma {:induction false} FirstWins(x: seq<u8>, rest: seq<seq<u8>>, k: u32)
    requires Key(x) == Some(k)
    ensures k in EntriesOf([x] + rest) && EntriesOf([x] + rest)[k] == x
    decreases |rest|
  {
    hide Key;
    var ds := [x] + rest;
    if rest == [] {
      assert ds[..|ds| - 1] == [];
    } else {
      FirstWins(x, rest[..|rest| - 1], k);
      assert ds[..|ds| - 1] == [x] + rest[..|rest| - 1];
    }
  }

  /** With a conflict some other order gives another dictionary. */
  lemma ConflictReorders(a: seq<seq<u8>>) returns (b: seq<seq<u8>>)
    requires Conflict(a)
    ensures multiset(b) == multiset(a) && EntriesOf(b) != EntriesOf(a)
  {
    hide Key, EntriesOf;
    var k, d, d' :| Has(a, k, d) && Has(a, k, d') && d != d';
    EntriesMean(a, k);
    var x := if EntriesOf(a)[k] == d then d' else d;
    var i :| 0 <= i < |a| && a[i] == x;
    var rest := a[..i] + a[i + 1..];
    b := [x] + rest;
    FirstWins(x, rest, k);
    assert a == a[..i] + [x] + a[i + 1..];
  }

  /**
    Two certificates of one subject share a key, whatever else they hold: a renewed root conflicts with
    the old one.
   */
  lemma SharedSubjectConflicts(c: CertDer.Certificate, d: CertDer.Certificate, ders: seq<seq<u8>>)
    requires CertDer.WellFormed(c) && CertDer.WellFormed(d) && c.fields[|c.fields| - 1] == d.fields[|d.fields| - 1]
    requires CertDer.Size(CertDer.Outer(c)) <= MAX_DER && CertDer.Size(CertDer.Outer(d)) <= MAX_DER
    requires var x, y := CertDer.Encode(CertDer.Outer(c)), CertDer.Encode(CertDer.Outer(d));
      x in ders && y in ders && x != y
    ensures Conflict(ders)
  {
    var x, y := CertDer.Encode(CertDer.Outer(c)), CertDer.Encode(CertDer.Outer(d));
    hide CertDer.Encode, CertDer.WellFormed, CertDer.Subject, KeyOf, Conflict;
    CertDer.CertificateSubject(c, []);
    CertDer.CertificateSubject(d, []);
    assert x + [] == x && y + [] == y;
    var k := KeyOf(CertDer.Subject(x).value);
    assert k == KeyOf(CertDer.Subject(y).value);
    Conflicting(ders, k, x, y);
  }

  lemma Conflicting(ders: seq<seq<u8>>, k: u32, d: seq<u8>, d': seq<u8>)
    requires Has(ders, k, d) && Has(ders, k, d') && d != d'
    ensures Conflict(ders)
  {
  }

  const BLANK: CertDer.Field := CertDer.Field(CertDer.SEQUENCE, 0, [])

  /** A smallest certificate: five empty fields and one byte of signature. */
  function Root(signature: u8): (c: CertDer.Certificate) {
    CertDer.Certificate(0, 0, seq(5, _ => BLANK), false, [], [signature])
  }

  lemma {:induction false} BlankSizes(fs: seq<CertDer.Field>)
    requires forall i :: 0 <= i < |fs| ==> fs[i] == BLANK
    ensures CertDer.Sizes(fs) == 2 * |fs|
  {
    if fs != [] { BlankSizes(fs[1..]); }
  }

  lemma RootIsWellFormed(signature: u8)
    ensures CertDer.WellFormed(Root(signature)) && CertDer.Size(CertDer.Outer(Root(signature))) <= MAX_DER
    ensures var x := CertDer.Encode(CertDer.Outer(Root(signature))); x != [] && x[|x| - 1] == signature
  {
    var c := Root(signature);
    BlanksEncoded(c.fields);
    hide CertDer.EncodeAll, CertDer.Encode, CertDer.Pow256;
    var t := CertDer.Tbs(c);
    assert |t.content| == 10;
    assert CertDer.Valid(t);
    var o := CertDer.Outer(c);
    assert o.content == CertDer.Encode(t) + [signature];
    assert CertDer.Valid(o);
    EndsAlike(o);
  }

  lemma BlanksEncoded(fs: seq<CertDer.Field>)
    requires |fs| == 5 && forall i :: 0 <= i < |fs| ==> fs[i] == BLANK
    ensures CertDer.AllValid(fs) && |CertDer.EncodeAll(fs)| == 10
  {
    hide CertDer.EncodeAll, CertDer.Sizes, CertDer.ElementsAt;
    BlankSizes(fs);
    CertDer.EncodedInOrder(fs);
  }

  lemma EndsAlike(f: CertDer.Field)
    requires CertDer.Valid(f) && f.content != []
    ensures var x := CertDer.Encode(f); x != [] && x[|x| - 1] == f.content[|f.content| - 1]
  {
    hide CertDer.Front, CertDer.Valid;
  }

  /** A bundle with a root and its renewal: what the store holds depends on which comes first. */
  lemma RenewedRootConflicts()
    ensures var x, y := CertDer.Encode(CertDer.Outer(Root(0))), CertDer.Encode(CertDer.Outer(Root(1)));
      Conflict([x, y]) && EntriesOf([x, y]) != EntriesOf([y, x])
  {
    RootIsWellFormed(0);
    RootIsWellFormed(1);
    var x, y := CertDer.Encode(CertDer.Outer(Root(0))), CertDer.Encode(CertDer.Outer(Root(1)));
    assert Root(0).fields == Root(1).fields;
    hide CertDer.WellFormed, CertDer.Encode;
    SharedSubjectConflicts(Root(0), Root(1), [x, y]);
    hide Root;
    TwoConflict(x, y);
  }

  lemma TwoConflict(x: seq<u8>, y: seq<u8>)
    requires Conflict([x, y])
    ensures EntriesOf([x, y]) != EntriesOf([y, x])
  {
    hide EntriesOf, Key;
    var k, d, d' :| Has([x, y], k, d) && Has([x, y], k, d') && d != d';
    FirstWins(x, [y], k);
    FirstWins(y, [x], k);
    assert [x] + [y] == [x, y] && [y] + [x] == [y, x];
  }

  lemma SameElements(a: seq<seq<u8>>, b: seq<seq<u8>>)
    requires multiset(a) == multiset(b)
    ensures forall d :: d in a <==> d in b
  {
    forall d ensures d in a <==> d in b {
      assert d in a <==> d in multiset(a);
      assert d in b <==> d in multiset(b);
    }
  }

  /** The order of the bundle is irrelevant exactly when no key has two different certificates. */
  lemma OrderFreeIff(a: seq<seq<u8>>)
    ensures !Conflict(a) <==> forall b :: multiset(b) == multiset(a) ==> EntriesOf(b) == EntriesOf(a)
  {
    hide Key, EntriesOf, Conflict;
    if Conflict(a) {
      var b := ConflictReorders(a);
    } else {
      forall b | multiset(b) == multiset(a) ensures EntriesOf(b) == EntriesOf(a) {
        SameElements(a, b);
        OrderFree(a, b);
      }
    }
  }

  // ---------------------------------------------------------------- the file

  /** struct.pack(">I", v). */
  function Pack(v: nat): (b: seq<u8>)
    ensures |b| == 4
  {
    FourBytes(v % TWO32)
  }

  lemma ReadAt(b: seq<u8>, i: nat, v: u32)
    requires i + 4 <= |b| && b[i..i + 4] == Pack(v)
    ensures Be32(b, i) == v
  {
    hide FourBytes;
    assert b[i..i + 4] == [b[i], b[i + 1], b[i + 2], b[i + 3]];
    FourBytesInverse(b[i], b[i + 1], b[i + 2], b[i + 3], v);
  }

  datatype Item = Item(key: u32, der: seq<u8>)

  type Dict = map<u32, seq<u8>>

  predicate Increasing(items: seq<Item>) { forall i, j :: 0 <= i < j < |items| ==> items[i].key < items[j].key }

  /** The dictionary's pairs in strictly increasing order of key. */
  ghost predicate Sorted(items: seq<Item>, e: Dict) {
    Increasing(items) && forall x: Item :: x in items <==> x.key in e && e[x.key] == x.der
  }

  /** Where blob `i` begins: behind the index, one blob after the other. */
  function Offset(items: seq<Item>, i: nat): (o: nat)
    requires i <= |items|
    ensures o >= HEADER + ENTRY * |items|
  {
    if i == 0 then HEADER + ENTRY * |items| else Offset(items, i - 1) + |items[i - 1].der|
  }

  function Record(items: seq<Item>, i: nat): (b: seq<u8>)
    requires i < |items|
    ensures |b| == ENTRY
  {
    Pack(items[i].key) + Pack(Offset(items, i)) + Pack(|items[i].der|)
  }

  function IndexBytes(items: seq<Item>, n: nat): (b: seq<u8>)
    requires n <= |items|
    ensures |b| == ENTRY * n
  {
    if n == 0 then [] else IndexBytes(items, n - 1) + Record(items, n - 1)
  }

  function BlobBytes(items: seq<Item>, n: nat): (b: seq<u8>)
    requires n <= |items|
    ensures |b| == Offset(items, n) - HEADER - ENTRY * |items|
  {
    if n == 0 then [] else BlobBytes(items, n - 1) + items[n - 1].der
  }

  function Head(n: nat): (b: seq<u8>)
    ensures |b| == HEADER
  {
    Pack(MAGIC) + Pack(n) + Pack(HEADER) + Pack(HEADER + ENTRY * n)
  }

  /** The whole file: header, index, and the blobs back to back to its end. */
  function StoreBytes(items: seq<Item>): (b: seq<u8>)
    ensures |b| == Offset(items, |items|)
  {
    Head(|items|) + IndexBytes(items, |items|) + BlobBytes(items, |items|)
  }

  /** The numbers of the first `n` records fit in 32 bits. */
  predicate RecordsFit(items: seq<Item>, n: nat)
    requires n <= |items|
  {
    n == 0 || (RecordsFit(items, n - 1) && Offset(items, n - 1) < TWO32 && |items[n - 1].der| < TWO32)
  }

  /** Every number struct.pack(">III") is given fits. */
  predicate Fits(items: seq<Item>) { HEADER + ENTRY * |items| < TWO32 && RecordsFit(items, |items|) }

  lemma {:induction false} FewerFit(items: seq<Item>, m: nat, n: nat)
    requires m <= n <= |items| && RecordsFit(items, n)
    ensures RecordsFit(items, m)
  {
    if m < n { FewerFit(items, m, n - 1); }
  }

  // ---------------------------------------------------------------- writing it

  method InsertItem(items: seq<Item>, x: Item) returns (r: seq<Item>)
    requires Increasing(items) && forall y :: y in items ==> y.key != x.key
    ensures Increasing(r) && forall y :: y in r <==> y in items || y == x
  {
    var i := 0;
    while i < |items| && items[i].key < x.key
      invariant 0 <= i <= |items| && forall j :: 0 <= j < i ==> items[j].key < x.key
    {
      i := i + 1;
    }
    r := items[..i] + [x] + items[i..];
    assert i < |items| ==> items[i] in items;
    Inserted(items, i, x);
  }

  lemma InsertedAt(items: seq<Item>, i: nat, x: Item)
    requires i <= |items|
    ensures var r := items[..i] + [x] + items[i..];
      && |r| == |items| + 1
      && forall j :: 0 <= j < |r| ==> r[j] == if j < i then items[j] else if j == i then x else items[j - 1]
  {
  }

  lemma Inserted(items: seq<Item>, i: nat, x: Item)
    requires Increasing(items) && i <= |items| && (i < |items| ==> x.key < items[i].key)
    requires forall j :: 0 <= j < i ==> items[j].key < x.key
    ensures var r := items[..i] + [x] + items[i..];
      Increasing(r) && forall y :: y in r <==> y in items || y == x
  {
    InsertedAt(items, i, x);
    InsertedElements(items, i, x);
  }

  lemma InsertedElements(items: seq<Item>, i: nat, x: Item)
    requires i <= |items|
    ensures forall y :: y in items[..i] + [x] + items[i..] <==> y in items || y == x
  {
    var r := items[..i] + [x] + items[i..];
    InsertedAt(items, i, x);
    assert r[i] == x;
    forall y | y in items ensures y in r {
      var j :| 0 <= j < |items| && items[j] == y;
      assert r[if j < i then j else j + 1] == y;
    }
  }

  /** sorted(entries), each key with its certificate. */
  method SortItems(e: Dict) returns (items: seq<Item>)
    ensures Sorted(items, e)
  {
    items := [];
    var left := e.Keys;
    while left != {}
      invariant Increasing(items) && left <= e.Keys
      invariant forall x: Item :: x in items <==> x.key in e && x.key !in left && e[x.key] == x.der
      decreases left
    {
      var k :| k in left;
      items := InsertItem(items, Item(k, e[k]));
      left := left - {k};
    }
  }

  lemma OneMore(items: seq<Item>, n: nat)
    requires n < |items|
    ensures IndexBytes(items, n + 1) ==
            IndexBytes(items, n) + (Pack(items[n].key) + Pack(Offset(items, n)) + Pack(|items[n].der|))
    ensures BlobBytes(items, n + 1) == BlobBytes(items, n) + items[n].der
    ensures Offset(items, n + 1) == Offset(items, n) + |items[n].der|
    ensures RecordsFit(items, n + 1) <==> RecordsFit(items, n) && Offset(items, n) < TWO32 && |items[n].der| < TWO32
  {
    hide Pack;
  }

  /** The loop that lays out index and blobs; it stops where a number does not fit. */
  method LayOut(items: seq<Item>) returns (ok: bool, index: seq<u8>, blobs: seq<u8>)
    ensures ok <==> RecordsFit(items, |items|)
    ensures ok ==> index == IndexBytes(items, |items|) && blobs == BlobBytes(items, |items|)
  {
    index, blobs := [], [];
    var offset := HEADER + ENTRY * |items|;
    assert offset == Offset(items, 0) && RecordsFit(items, 0);
    assert index == IndexBytes(items, 0) && blobs == BlobBytes(items, 0);
    hide *;
    for i := 0 to |items|
      invariant offset == Offset(items, i) && index == IndexBytes(items, i) && blobs == BlobBytes(items, i)
      invariant RecordsFit(items, i)
    {
      var der := items[i].der;
      OneMore(items, i);
      if offset >= TWO32 || |der| >= TWO32 {
        if RecordsFit(items, |items|) {
          FewerFit(items, i + 1, |items|);
        }
        return false, index, blobs;
      }
      index := index + (Pack(items[i].key) + Pack(offset) + Pack(|der|));
      blobs := blobs + der;
      offset := offset + |der|;
    }
    ok := true;
  }

  /** The tail of main(): the store of a dictionary, unless some number does not fit its field. */
  method WriteStore(e: Dict) returns (store: Option<seq<u8>>, items: seq<Item>)
    ensures Sorted(items, e)
    ensures store == if Fits(items) then Some(StoreBytes(items)) else None
  {
    hide Pack, Sorted, Offset;
    items := SortItems(e);
    var dataOffset := HEADER + ENTRY * |items|;
    if dataOffset >= TWO32 {
      return None, items;
    }
    var ok, index, blobs := LayOut(items);
    if !ok {
      return None, items;
    }
    store := Some(Pack(MAGIC) + Pack(|items|) + Pack(HEADER) + Pack(dataOffset) + index + blobs);
  }

  /**
    main() from the certificates on: a store exactly when there is a certificate, every one can be
    indexed, there are as many roots as asked for and every number fits; never a partial one.
   */
  method MakeStore(ders: seq<seq<u8>>, minRoots: int) returns (store: Option<seq<u8>>)
    ensures forall items :: Sorted(items, EntriesOf(ders)) ==>
      store == if ders != [] && AllUsable(ders) && |items| >= minRoots then Written(items) else None
  {
    hide *;
    var entries, partial := Collect(ders);
    UsableGivesEntries(ders);
    if entries == map[] || partial {
      return None;
    }
    var items;
    store, items := WriteStore(entries);
    forall x | Sorted(x, entries) ensures x == items {
      SortedUnique(x, items, entries);
    }
    WrittenMeans(items);
    if |items| < minRoots {
      store := None;
    }
  }

  lemma WrittenMeans(items: seq<Item>)
    ensures Written(items) == if Fits(items) then Some(StoreBytes(items)) else None
  {
  }

  lemma UsableGivesEntries(ders: seq<seq<u8>>)
    ensures ders == [] ==> EntriesOf(ders) == map[]
    ensures ders != [] && AllUsable(ders) ==> EntriesOf(ders) != map[]
  {
    hide Key;
    if ders != [] && AllUsable(ders) {
      EntriesMean(ders, Key(ders[0]).value);
      assert Has(ders, Key(ders[0]).value, ders[0]);
    }
  }

  /** One dictionary has one sorted listing. */
  lemma {:induction false} SortedUnique(a: seq<Item>, b: seq<Item>, e: Dict)
    requires Sorted(a, e) && Sorted(b, e)
    ensures a == b
  {
    if |a| <= |b| {
      SamePrefix(a, b, e, |a|);
      NotLonger(a, b, e);
    } else {
      SamePrefix(a, b, e, |b|);
      NotLonger(b, a, e);
    }
    assert a[..|a|] == a && b[..|b|] == b;
  }

  lemma {:induction false} SamePrefix(a: seq<Item>, b: seq<Item>, e: Dict, n: nat)
    requires Sorted(a, e) && Sorted(b, e) && n <= |a| && n <= |b|
    ensures a[..n] == b[..n]
  {
    if n > 0 {
      SamePrefix(a, b, e, n - 1);
      NotBehind(a, b, e, n - 1);
      NotBehind(b, a, e, n - 1);
      assert a[n - 1] in a && b[n - 1] in b;
      assert a[..n] == a[..n - 1] + [a[n - 1]] && b[..n] == b[..n - 1] + [b[n - 1]];
    }
  }

  /** After equal beginnings neither listing is ahead. */
  lemma NotBehind(a: seq<Item>, b: seq<Item>, e: Dict, n: nat)
    requires Sorted(a, e) && Sorted(b, e) && n < |a| && n < |b| && a[..n] == b[..n]
    ensures a[n].key >= b[n].key
  {
    assert a[n] in b;
    var j :| 0 <= j < |b| && b[j] == a[n];
    assert forall i :: 0 <= i < n ==> a[..n][i] == b[..n][i];
  }

  lemma NotLonger(a: seq<Item>, b: seq<Item>, e: Dict)
    requires Sorted(a, e) && Sorted(b, e) && |a| <= |b| && a[..|a|] == b[..|a|]
    ensures |b| <= |a|
  {
    if b != [] {
      var m := |b| - 1;
      assert b[m] in b;
      var j :| 0 <= j < |a| && a[j] == b[m];
      assert a[..|a|][j] == b[..|a|][j];
    }
  }

  lemma {:induction false} PlaceFor(items: seq<Item>, key: u32) returns (i: nat)
    requires Increasing(items) && forall y :: y in items ==> y.key != key
    ensures i <= |items| && (i < |items| ==> key < items[i].key) && forall j :: 0 <= j < i ==> items[j].key < key
  {
    i := 0;
    if items != [] && items[0].key < key {
      assert forall y :: y in items[1..] ==> y in items;
      i := PlaceFor(items[1..], key);
      i := i + 1;
    } else if items != [] {
      assert items[0] in items;
    }
  }

  /** Every dictionary has a sorted listing. */
  lemma {:induction false} Listing(e: Dict) returns (items: seq<Item>)
    ensures Sorted(items, e)
    decreases |e|
  {
    if e == map[] {
      items := [];
    } else {
      var k :| k in e;
      var less := e - {k};
      assert |less.Keys| < |e.Keys| by { assert less.Keys == e.Keys - {k}; }
      var rest := Listing(less);
      var i := PlaceFor(rest, k);
      Inserted(rest, i, Item(k, e[k]));
      items := rest[..i] + [Item(k, e[k])] + rest[i..];
    }
  }

  // ---------------------------------------------------------------- what stands where

  /** The three numbers of an index record. */
  datatype Entry = Entry(key: u32, offset: u32, length: u32)

  function EntryAt(file: seq<u8>, i: nat): (e: Entry)
    requires HEADER + ENTRY * i + ENTRY <= |file|
  {
    Entry(Be32(file, HEADER + ENTRY * i), Be32(file, HEADER + ENTRY * i + 4), Be32(file, HEADER + ENTRY * i + 8))
  }

  lemma {:induction false} IndexSlice(items: seq<Item>, n: nat, i: nat)
    requires i < n <= |items|
    ensures IndexBytes(items, n)[ENTRY * i..ENTRY * i + ENTRY] == Record(items, i)
  {
    hide Record;
    var b, rest := IndexBytes(items, n), IndexBytes(items, n - 1);
    assert b == rest + Record(items, n - 1);
    hide IndexBytes;
    if i < n - 1 {
      IndexSlice(items, n - 1, i);
      assert b[ENTRY * i..ENTRY * i + ENTRY] == rest[ENTRY * i..ENTRY * i + ENTRY];
    } else {
      assert b[ENTRY * i..] == Record(items, i);
    }
  }

  lemma {:induction false} OffsetsGrow(items: seq<Item>, i: nat, j: nat)
    requires i < j <= |items|
    ensures Offset(items, i) + |items[i].der| <= Offset(items, j)
  {
    if i < j - 1 { OffsetsGrow(items, i, j - 1); }
  }

  lemma {:induction false} BlobSlice(items: seq<Item>, n: nat, i: nat)
    requires i < n <= |items|
    ensures Offset(items, i) + |items[i].der| <= Offset(items, n)
    ensures var from := Offset(items, i) - HEADER - ENTRY * |items|;
      BlobBytes(items, n)[from..from + |items[i].der|] == items[i].der
  {
    OffsetsGrow(items, i, n);
    var from := Offset(items, i) - HEADER - ENTRY * |items|;
    var b, rest := BlobBytes(items, n), BlobBytes(items, n - 1);
    assert b == rest + items[n - 1].der;
    if i < n - 1 {
      BlobSlice(items, n - 1, i);
      hide Offset, BlobBytes;
      assert b[from..from + |items[i].der|] == rest[from..from + |items[i].der|];
    }
  }

  lemma Piece(a: seq<u8>, b: seq<u8>, c: seq<u8>, i: nat, j: nat)
    requires i <= j <= |b|
    ensures (a + b + c)[|a| + i..|a| + j] == b[i..j]
  {
  }

  lemma Behind(a: seq<u8>, b: seq<u8>, i: nat, j: nat)
    requires i <= j <= |b|
    ensures (a + b)[|a| + i..|a| + j] == b[i..j]
  {
  }

  /** Every record reads back as the key, the offset and the length of its certificate. */
  lemma RecordReads(items: seq<Item>, i: nat)
    requires i < |items| && Offset(items, i) < TWO32 && |items[i].der| < TWO32
    ensures HEADER + ENTRY * i + ENTRY <= |StoreBytes(items)|
    ensures EntryAt(StoreBytes(items), i) == Entry(items[i].key, Offset(items, i), |items[i].der|)
  {
    hide Pack, Offset, IndexBytes, BlobBytes, Be32, Head;
    var n := |items|;
    var s, at := StoreBytes(items), HEADER + ENTRY * i;
    var index, r := IndexBytes(items, n), Record(items, i);
    IndexSlice(items, n, i);
    Piece(Head(n), index, BlobBytes(items, n), ENTRY * i, ENTRY * i + ENTRY);
    assert s[at..at + ENTRY] == r;
    FieldReads(s, at, items[i].key, Offset(items, i), |items[i].der|);
  }

  lemma FieldReads(s: seq<u8>, at: nat, a: u32, b: u32, c: u32)
    requires at + ENTRY <= |s| && s[at..at + ENTRY] == Pack(a) + Pack(b) + Pack(c)
    ensures Be32(s, at) == a && Be32(s, at + 4) == b && Be32(s, at + 8) == c
  {
    hide Pack, Be32;
    var r := Pack(a) + Pack(b) + Pack(c);
    assert s[at..at + 4] == s[at..at + ENTRY][0..4] == r[0..4] == Pack(a);
    assert s[at + 4..at + 8] == s[at..at + ENTRY][4..8] == r[4..8] == Pack(b);
    assert s[at + 8..at + 12] == s[at..at + ENTRY][8..12] == r[8..12] == Pack(c);
    ReadAt(s, at, a);
    ReadAt(s, at + 4, b);
    ReadAt(s, at + 8, c);
  }

  /**
    The file byte by byte: "ACS1", how many roots, 16, and where the first certificate is; then
    twelve bytes for each root, its key, its place and its length; then the certificates.
   */
  lemma FileLayout(items: seq<Item>, i: nat)
    requires Fits(items)
    ensures var s, n := StoreBytes(items), |items|;
      && |s| >= 16 + 12 * n && s[..4] == [0x41, 0x43, 0x53, 0x31]
      && Be32(s, 4) == n && Be32(s, 8) == 16 && Be32(s, 12) == 16 + 12 * n
    ensures i < |items| ==>
      var s, at := StoreBytes(items), 16 + 12 * i;
      && at + 12 <= |s| && Be32(s, at) == items[i].key && Be32(s, at + 8) == |items[i].der|
      && Be32(s, at + 4) + |items[i].der| <= |s|
      && s[Be32(s, at + 4)..Be32(s, at + 4) + |items[i].der|] == items[i].der
  {
    var s := StoreBytes(items);
    HeadReads(items);
    FirstFour(s);
    if i < |items| {
      FitAt(items, |items|, i);
      RecordReads(items, i);
      BlobReads(items, i);
    }
    hide StoreBytes, Offset, Be32, RecordsFit;
  }

  lemma FirstFour(s: seq<u8>)
    requires |s| >= 4 && Be32(s, 0) == MAGIC
    ensures s[..4] == [0x41, 0x43, 0x53, 0x31]
  {
    FourBytesInverse(s[0], s[1], s[2], s[3], MAGIC);
    assert FourBytes(MAGIC) == [0x41, 0x43, 0x53, 0x31];
    assert s[..4] == [s[0], s[1], s[2], s[3]];
  }

  lemma HeadReads(items: seq<Item>)
    requires HEADER + ENTRY * |items| < TWO32
    ensures var s := StoreBytes(items);
      Be32(s, 0) == MAGIC && Be32(s, 4) == |items| && Be32(s, 8) == HEADER && Be32(s, 12) == HEADER + ENTRY * |items|
  {
    hide Pack, Be32, IndexBytes, BlobBytes, Offset;
    var s, n := StoreBytes(items), |items|;
    var a, b, c, d := Pack(MAGIC), Pack(n), Pack(HEADER), Pack(HEADER + ENTRY * n);
    var rest := IndexBytes(items, n) + BlobBytes(items, n);
    assert s == a + b + c + d + rest;
    assert s[0..ENTRY] == a + b + c;
    FieldReads(s, 0, MAGIC, n, HEADER);
    assert s[12..16] == d;
    ReadAt(s, 12, HEADER + ENTRY * n);
  }

  /** The bytes a record points to are its certificate. */
  lemma BlobReads(items: seq<Item>, i: nat)
    requires i < |items|
    ensures var o, n := Offset(items, i), |items[i].der|;
      o + n <= |StoreBytes(items)| && StoreBytes(items)[o..o + n] == items[i].der
  {
    hide Pack, Offset, IndexBytes, BlobBytes, Head;
    var n := |items|;
    var front, blobs := Head(n) + IndexBytes(items, n), BlobBytes(items, n);
    assert StoreBytes(items) == front + blobs;
    hide StoreBytes;
    BlobSlice(items, n, i);
    Behind(front, blobs, Offset(items, i) - |front|, Offset(items, i) - |front| + |items[i].der|);
  }

  /** The file holds all there is to know of the listing. */
  lemma FileDetermines(x: seq<Item>, y: seq<Item>)
    requires Fits(x) && Fits(y) && StoreBytes(x) == StoreBytes(y)
    ensures x == y
  {
    hide StoreBytes, Offset, RecordsFit, EntryAt, Be32;
    HeadReads(x);
    HeadReads(y);
    forall i | 0 <= i < |x| ensures x[i] == y[i] {
      FitAt(x, |x|, i);
      FitAt(y, |y|, i);
      RecordReads(x, i);
      RecordReads(y, i);
      BlobReads(x, i);
      BlobReads(y, i);
    }
  }

  // ---------------------------------------------------------------- opening it

  /** What tls_store_open asks of a file. */
  predicate Openable(file: seq<u8>) {
    && |file| >= HEADER && Be32(file, 0) == MAGIC
    && 1 <= Be32(file, 4) <= MAX_ROOTS && Be32(file, 8) == HEADER
    && |file| >= HEADER + ENTRY * Be32(file, 4)
  }

  ghost predicate Opened(file: seq<u8>, index: seq<Entry>) {
    && Openable(file) && |index| == Be32(file, 4)
    && forall i :: 0 <= i < |index| ==> index[i] == EntryAt(file, i)
  }

  /** tls_store_open. */
  method Open(file: seq<u8>, memory: bool) returns (index: Option<seq<Entry>>)
    ensures index.Some? <==> Openable(file) && memory
    ensures index.Some? ==> Opened(file, index.value)
  {
    if |file| < HEADER || Be32(file, 0) != MAGIC {
      return None;
    }
    var count, indexOffset := Be32(file, 4), Be32(file, 8);
    if count == 0 || count > MAX_ROOTS || indexOffset != HEADER {
      return None;
    }
    if !memory || |file| < HEADER + ENTRY * count {
      return None;
    }
    hide Be32, EntryAt;
    var decoded := DecodeIndex(file, count);
    index := Some(decoded);
  }

  /** The index of a file, from its last record to its first. */
  method DecodeIndex(file: seq<u8>, count: nat) returns (decoded: seq<Entry>)
    requires |file| >= HEADER + ENTRY * count
    ensures |decoded| == count && forall i :: 0 <= i < count ==> decoded[i] == EntryAt(file, i)
  {
    decoded := [];
    var i := count;
    hide EntryAt;
    while i > 0
      invariant 0 <= i <= count && |decoded| == count - i
      invariant forall j :: i <= j < count ==> decoded[j - i] == EntryAt(file, j)
    {
      i := i - 1;
      decoded := [EntryAt(file, i)] + decoded;
    }
  }

  // ---------------------------------------------------------------- fetching from it

  /** The file is still the one that was indexed: its header and every record agree. */
  ghost predicate SameFile(index: seq<Entry>, file: seq<u8>) {
    && |file| >= HEADER + ENTRY * |index|
    && Be32(file, 0) == MAGIC && Be32(file, 4) == |index| && Be32(file, 8) == HEADER
    && forall i :: 0 <= i < |index| ==> EntryAt(file, i) == index[i]
  }

  /** tls_store_same, sixteen records at a time. */
  method StoreSame(index: seq<Entry>, file: seq<u8>) returns (same: bool)
    ensures same == SameFile(index, file)
  {
    hide Be32;
    if |file| < HEADER || Be32(file, 0) != MAGIC || Be32(file, 4) != |index| || Be32(file, 8) != HEADER {
      return false;
    }
    var done := 0;
    while done < |index|
      invariant 0 <= done <= |index| && HEADER + ENTRY * done <= |file|
      invariant forall i :: 0 <= i < done ==> EntryAt(file, i) == index[i]
    {
      var n := if |index| - done > 16 then 16 else |index| - done;
      if |file| < HEADER + ENTRY * (done + n) {
        return false;
      }
      for i := 0 to n
        invariant forall j :: 0 <= j < done + i ==> EntryAt(file, j) == index[j]
      {
        if EntryAt(file, done + i) != index[done + i] {
          return false;
        }
      }
      done := done + n;
    }
    return true;
  }

  predicate SortedIndex(index: seq<Entry>) { forall i, j :: 0 <= i < j < |index| ==> index[i].key < index[j].key }

  /** The binary search: on a sorted index it misses no key. */
  method Search(index: seq<Entry>, key: u32) returns (at: Option<nat>)
    ensures at.Some? ==> at.value < |index| && index[at.value].key == key
    ensures at.None? && SortedIndex(index) ==> forall i :: 0 <= i < |index| ==> index[i].key != key
  {
    var lo, hi := 0, |index|;
    while lo < hi
      invariant 0 <= lo <= hi <= |index|
      invariant SortedIndex(index) ==> forall i :: 0 <= i < |index| && !(lo <= i < hi) ==> index[i].key != key
    {
      var mid := lo + (hi - lo) / 2;
      if index[mid].key < key {
        lo := mid + 1;
      } else if index[mid].key > key {
        hi := mid;
      } else {
        return Some(mid);
      }
    }
    return None;
  }

  /** A record whose certificate can be read from this file into a buffer of this size. */
  ghost predicate Readable(e: Entry, file: seq<u8>, size: nat) {
    0 < e.length <= size && e.offset < 0x8000_0000 && e.offset + e.length <= |file|
  }

  /** What a fetch may answer: a certificate of this key from an unchanged file, or nothing. */
  ghost predicate Fetched(index: seq<Entry>, file: seq<u8>, key: u32, size: nat, r: seq<u8>) {
    && (r != [] ==> exists i :: 0 <= i < |index| && index[i].key == key && Readable(index[i], file, size)
                      && SameFile(index, file) && r == file[index[i].offset..index[i].offset + index[i].length])
    && (SortedIndex(index) && SameFile(index, file) && r == [] ==>
          key == 0 || forall i :: 0 <= i < |index| && index[i].key == key ==> !Readable(index[i], file, size))
  }

  /** tls_store_fetch: the index of one open, the bytes of another. */
  method Fetch(index: seq<Entry>, key: u32, size: nat, file: seq<u8>) returns (r: seq<u8>)
    ensures Fetched(index, file, key, size, r)
  {
    hide SameFile;
    r := [];
    if key == 0 {
      return;
    }
    var at := Search(index, key);
    if at.None? {
      return;
    }
    var e := index[at.value];
    var same := false;
    if e.length != 0 && e.length <= size {
      same := StoreSame(index, file);
    }
    if same && e.offset < 0x8000_0000 && e.offset + e.length <= |file| {
      r := file[e.offset..e.offset + e.length];
    }
  }

  // ---------------------------------------------------------------- there and back

  lemma {:induction false} OffsetBound(items: seq<Item>, i: nat)
    requires i <= |items| && forall x :: x in items ==> |x.der| <= MAX_DER
    ensures Offset(items, i) <= HEADER + ENTRY * |items| + MAX_DER * i
  {
    if i > 0 {
      OffsetBound(items, i - 1);
      assert items[i - 1] in items;
    }
  }

  lemma {:induction false} FitAt(items: seq<Item>, n: nat, i: nat)
    requires i < n <= |items| && RecordsFit(items, n)
    ensures Offset(items, i) < TWO32 && |items[i].der| < TWO32
  {
    FewerFit(items, i + 1, n);
  }

  /** The index is the listing: each key with the place and length of its certificate. */
  ghost predicate Lists(index: seq<Entry>, items: seq<Item>) {
    && |index| == |items|
    && forall i :: 0 <= i < |items| ==>
         index[i].key == items[i].key && index[i].offset == Offset(items, i) && index[i].length == |items[i].der|
  }

  /** Any store of at most 1024 certificates opens, and its index is the sorted listing. */
  lemma Reopened(items: seq<Item>, index: seq<Entry>)
    requires Fits(items)
    ensures Openable(StoreBytes(items)) <==> 1 <= |items| <= 1024
    ensures Opened(StoreBytes(items), index) ==> Lists(index, items) && SameFile(index, StoreBytes(items))
  {
    hide Pack, Be32, Offset, IndexBytes, BlobBytes, Record, Head;
    var file := StoreBytes(items);
    HeadReads(items);
    hide StoreBytes, EntryAt;
    if Opened(file, index) {
      forall i | 0 <= i < |items|
        ensures index[i].key == items[i].key && index[i].offset == Offset(items, i) && index[i].length == |items[i].der|
      {
        FitAt(items, |items|, i);
        RecordReads(items, i);
        assert index[i] == EntryAt(file, i);
      }
    }
  }

  /** A certificate of the listing can be read through its record, and reads as itself. */
  lemma RecordLeadsToBlob(items: seq<Item>, index: seq<Entry>, i: nat)
    requires Lists(index, items) && i < |items| <= MAX_ROOTS
    requires forall x :: x in items ==> 0 < |x.der| <= MAX_DER
    ensures Readable(index[i], StoreBytes(items), MAX_DER)
    ensures StoreBytes(items)[index[i].offset..index[i].offset + index[i].length] == items[i].der
  {
    hide StoreBytes, Offset;
    assert items[i] in items;
    OffsetBound(items, i);
    BlobReads(items, i);
  }

  /** What a fetch from an unchanged store answers is in the listing, and what is in the listing is answered. */
  lemma FetchedIsListed(items: seq<Item>, index: seq<Entry>, key: u32, size: nat, r: seq<u8>)
    requires Lists(index, items) && Increasing(items) && |items| <= MAX_ROOTS && size >= MAX_DER && key != 0
    requires forall x :: x in items ==> 0 < |x.der| <= MAX_DER
    requires SameFile(index, StoreBytes(items)) && Fetched(index, StoreBytes(items), key, size, r)
    ensures r != [] ==> Item(key, r) in items
    ensures forall x :: x in items && x.key == key ==> r != []
  {
    hide StoreBytes, Offset, SameFile;
    var file := StoreBytes(items);
    if r != [] {
      var j :| 0 <= j < |index| && index[j].key == key && Readable(index[j], file, size)
        && r == file[index[j].offset..index[j].offset + index[j].length];
      RecordLeadsToBlob(items, index, j);
      assert items[j] == Item(key, r);
    }
    forall x | x in items && x.key == key ensures r != [] {
      var i :| 0 <= i < |items| && items[i] == x;
      RecordLeadsToBlob(items, index, i);
      assert index[i].key == key && Readable(index[i], file, size);
      assert SortedIndex(index);
    }
  }

  /**
    What mkcertstore.py writes, tls_store.c gives back: with the dictionary of a bundle, a fetch
    of any key from the opened store answers exactly the certificate under that key, or nothing.
   */
  lemma StoreRoundTrip(items: seq<Item>, e: Dict, index: seq<Entry>, key: u32, size: nat, r: seq<u8>)
    requires Sorted(items, e) && Fits(items) && size >= MAX_DER
    requires 0 !in e && forall k :: k in e ==> 0 < |e[k]| <= MAX_DER
    requires Opened(StoreBytes(items), index) && Fetched(index, StoreBytes(items), key, size, r)
    ensures r == if key in e then e[key] else []
  {
    Reopened(items, index);
    assert Openable(StoreBytes(items));
    assert key == 0 ==> r == [] by { NoZeroKey(items, e, index, size, r); }
    hide StoreBytes, Fetched, SameFile, Lists, Fits, Opened;
    assert forall x :: x in items ==> 0 < |x.der| <= MAX_DER;
    if key != 0 {
      FetchedIsListed(items, index, key, size, r);
      if key in e {
        assert Item(key, e[key]) in items;
      }
      if r != [] {
        assert Item(key, r) in items;
      }
    }
  }

  lemma NoZeroKey(items: seq<Item>, e: Dict, index: seq<Entry>, size: nat, r: seq<u8>)
    requires Sorted(items, e) && 0 !in e && Lists(index, items)
    ensures Fetched(index, StoreBytes(items), 0, size, r) ==> r == []
  {
    hide StoreBytes, Offset, SameFile;
    assert forall i :: 0 <= i < |items| ==> items[i] in items;
  }

  lemma {:induction false} EntriesAreSmall(ders: seq<seq<u8>>, k: u32)
    requires k in EntriesOf(ders)
    ensures k != 0 && 0 < |EntriesOf(ders)[k]| <= MAX_DER
  {
    EntriesMean(ders, k);
    var d := EntriesOf(ders)[k];
    assert Key(d) == Some(k);
    hide Hash;
    assert CertDer.Subject([]).None?;
  }

  /**
    A whole bundle, there and back: a fetch answers the bundle's first certificate of that key, or
    nothing if it has none.
   */
  lemma BundleRoundTrip(ders: seq<seq<u8>>, items: seq<Item>, index: seq<Entry>, key: u32, size: nat, r: seq<u8>)
    requires Sorted(items, EntriesOf(ders)) && Fits(items) && size >= MAX_DER
    requires Opened(StoreBytes(items), index) && Fetched(index, StoreBytes(items), key, size, r)
    ensures r == if key in EntriesOf(ders) then EntriesOf(ders)[key] else []
    ensures forall i: nat :: FirstUnder(ders, key, i) ==> r == ders[i]
    ensures r == [] <==> forall i :: 0 <= i < |ders| ==> Key(ders[i]) != Some(key)
  {
    hide *;
    EntriesAllSmall(ders);
    StoreRoundTrip(items, EntriesOf(ders), index, key, size, r);
    UnderKey(ders, key);
  }

  lemma EntriesAllSmall(ders: seq<seq<u8>>)
    ensures var e := EntriesOf(ders); 0 !in e && forall k :: k in e ==> 0 < |e[k]| <= MAX_DER
  {
    hide EntriesOf;
    forall k ensures k in EntriesOf(ders) ==> k != 0 && 0 < |EntriesOf(ders)[k]| <= MAX_DER {
      if k in EntriesOf(ders) { EntriesAreSmall(ders, k); }
    }
  }

  /** The dictionary's certificate is the first of its key. */
  lemma UnderKey(ders: seq<seq<u8>>, key: u32)
    ensures var e := EntriesOf(ders);
      && (forall i: nat :: FirstUnder(ders, key, i) ==> key in e && e[key] == ders[i])
      && (key !in e <==> forall i :: 0 <= i < |ders| ==> Key(ders[i]) != Some(key))
      && (key in e ==> e[key] != [])
  {
    hide EntriesOf, Key;
    var e := EntriesOf(ders);
    forall i: nat | FirstUnder(ders, key, i) ensures key in e && e[key] == ders[i] {
      EntriesAreFirst(ders, key, i);
    }
    EntriesMean(ders, key);
    forall i | 0 <= i < |ders| && Key(ders[i]) == Some(key) ensures key in e {
      assert Has(ders, key, ders[i]);
    }
    if key in e { EntriesAreSmall(ders, key); }
  }

  /** What the writer leaves behind: a file, or none where a number does not fit its field. */
  function Written(items: seq<Item>): (f: Option<seq<u8>>) { if Fits(items) then Some(StoreBytes(items)) else None }

  /**
    A bundle that was written gives the same file in every order exactly when no key has two different
    certificates.
   */
  lemma FileOrderFreeIff(a: seq<seq<u8>>, x: seq<Item>)
    requires Sorted(x, EntriesOf(a)) && Fits(x)
    ensures !Conflict(a) <==>
            forall b, y :: multiset(b) == multiset(a) && Sorted(y, EntriesOf(b)) ==> Written(y) == Written(x)
  {
    hide EntriesOf, Sorted, Conflict, Written;
    if Conflict(a) {
      var b := ConflictReorders(a);
      var y := Listing(EntriesOf(b));
      if x == y {
        ListingDetermines(x, EntriesOf(a), EntriesOf(b));
      }
      WrittenDetermines(x, y);
    } else {
      forall b, y | multiset(b) == multiset(a) && Sorted(y, EntriesOf(b)) ensures Written(y) == Written(x) {
        FileIsOrderFree(a, b, x, y);
      }
    }
  }

  lemma WrittenDetermines(x: seq<Item>, y: seq<Item>)
    requires Fits(x)
    ensures Written(x) == Written(y) ==> x == y
  {
    hide Fits, StoreBytes;
    if Written(x) == Written(y) { FileDetermines(x, y); }
  }

  lemma ListingDetermines(x: seq<Item>, e: Dict, e': Dict)
    requires Sorted(x, e) && Sorted(x, e')
    ensures e == e'
  {
    forall k ensures k in e <==> k in e' {
      assert k in e ==> Item(k, e[k]) in x;
      assert k in e' ==> Item(k, e'[k]) in x;
    }
    forall k | k in e ensures e[k] == e'[k] {
      assert Item(k, e[k]) in x;
    }
  }

  /** One bundle in any order, without conflicting keys, gives one file. */
  lemma FileIsOrderFree(a: seq<seq<u8>>, b: seq<seq<u8>>, x: seq<Item>, y: seq<Item>)
    requires multiset(a) == multiset(b) && !Conflict(a) && Sorted(x, EntriesOf(a)) && Sorted(y, EntriesOf(b))
    ensures x == y && StoreBytes(x) == StoreBytes(y)
  {
    hide EntriesOf, Sorted, StoreBytes, Conflict;
    SameElements(a, b);
    OrderFree(a, b);
    SortedUnique(x, y, EntriesOf(a));
  }
}
