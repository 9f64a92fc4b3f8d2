/**
  The DER walk of tools/mkcertstore.py: finding the subject of a certificate, whose layout is
  section 4.1 of RFC 5280, against an encoder of that layout.
 */
module CertDer {
  import opened Words

  // ---------------------------------------------------------------- one element

  /** Tag, content, and how many octets the length takes after its first: none for the short form. */
  datatype Field = Field(tag: u8, octets: nat, content: seq<u8>)

  function Pow256(n: nat): (p: nat)
    ensures p >= 1
  {
    if n == 0 then 1 else 256 * Pow256(n - 1)
  }

  /** Big-endian, in exactly n bytes. */
  function ToBytes(n: nat, v: nat): (b: seq<u8>)
    ensures |b| == n
  {
    if n == 0 then [] else ToBytes(n - 1, v / 256) + [v % 256]
  }

  lemma {:induction false} ToBytesValue(n: nat, v: nat)
    requires v < Pow256(n)
    ensures BigEndian(ToBytes(n, v)) == v
  {
    if n > 0 {
      ToBytesValue(n - 1, v / 256);
      assert ToBytes(n, v)[..n - 1] == ToBytes(n - 1, v / 256);
    }
  }

  lemma {:induction false} BytesOfValue(b: seq<u8>)
    ensures BigEndian(b) < Pow256(|b|) && ToBytes(|b|, BigEndian(b)) == b
  {
    if b != [] {
      var n := |b| - 1;
      BytesOfValue(b[..n]);
      assert b == b[..n] + [b[n]];
      assert BigEndian(b) / 256 == BigEndian(b[..n]) && BigEndian(b) % 256 == b[n];
    }
  }

  /** Single-byte tags and definite lengths of at most four octets. */
  predicate Valid(f: Field) {
    f.tag % 32 != 31 && f.octets <= 4 && (if f.octets == 0 then |f.content| < 128 else |f.content| < Pow256(f.octets))
  }

  function Front(f: Field): (b: seq<u8>)
    requires Valid(f)
    ensures |b| == 2 + f.octets
  {
    [f.tag] + (if f.octets == 0 then [|f.content|] else [0x80 + f.octets] + ToBytes(f.octets, |f.content|))
  }

  function Encode(f: Field): (b: seq<u8>)
    requires Valid(f)
    ensures |b| == 2 + f.octets + |f.content|
  {
    Front(f) + f.content
  }

  /** Section 8.1.3 of X.690, on its three lengths: short form, one octet, two octets. */
  lemma FrontExamples(a: seq<u8>, b: seq<u8>, c: seq<u8>)
    requires |a| == 5 && |b| == 201 && |c| == 0x1234
    ensures Front(Field(0x30, 0, a)) == [0x30, 0x05] && Front(Field(0x04, 1, b)) == [0x04, 0x81, 0xC9]
    ensures Front(Field(0x30, 2, c)) == [0x30, 0x82, 0x12, 0x34]
  {
    assert Pow256(1) == 256 && Pow256(2) == 65536;
    assert ToBytes(1, 201) == [0xC9] && ToBytes(2, 0x1234) == ToBytes(1, 0x12) + [0x34];
  }

  datatype Head = Head(tag: u8, header: nat, length: nat)

  /** tlv(): a slice that runs past the end is clipped, and the length check behind it then refuses. */
  function Tlv(buf: seq<u8>, offset: nat): (r: Option<Head>) {
    if offset + 2 > |buf| then None
    else
      var tag := buf[offset];
      if tag % 32 == 31 then None
      else
        var l := buf[offset + 1];
        var n := if l >= 0x80 then l % 0x80 else 0;
        if l >= 0x80 && (n == 0 || n > 4) then None
        else
          var stop := if offset + 2 + n > |buf| then |buf| else offset + 2 + n;
          var length := if l >= 0x80 then BigEndian(buf[offset + 2..stop]) else l;
          if offset + 2 + n + length > |buf| then None else Some(Head(tag, 2 + n, length))
  }

  /** The element a header found stands in front of. */
  ghost function FieldAt(buf: seq<u8>, offset: nat, h: Head): (f: Field)
    requires h.header >= 2 && offset + h.header + h.length <= |buf|
  {
    Field(h.tag, h.header - 2, buf[offset + h.header..offset + h.header + h.length])
  }

  lemma {:induction false} FrontSound(buf: seq<u8>, offset: nat)
    requires Tlv(buf, offset).Some?
    ensures var h := Tlv(buf, offset).value;
      && h.header >= 2 && offset + h.header + h.length <= |buf|
      && Valid(FieldAt(buf, offset, h))
      && buf[offset..offset + h.header] == Front(FieldAt(buf, offset, h))
  {
    hide BigEndian, ToBytes, Pow256;
    var h := Tlv(buf, offset).value;
    if h.header > 2 {
      BytesOfValue(buf[offset + 2..offset + h.header]);
    }
    var f := FieldAt(buf, offset, h);
    assert Valid(f);
    var front := Front(f);
    if h.header > 2 {
      assert front[2..] == buf[offset + 2..offset + h.header];
    }
    assert buf[offset..offset + h.header] == front[..2] + buf[offset + 2..offset + h.header];
  }

  lemma {:induction false} FrontComplete(buf: seq<u8>, offset: nat, f: Field)
    requires Valid(f) && offset + 2 + f.octets + |f.content| <= |buf| && buf[offset..offset + 2 + f.octets] == Front(f)
    ensures Tlv(buf, offset) == Some(Head(f.tag, 2 + f.octets, |f.content|))
  {
    hide BigEndian, ToBytes, Pow256;
    var front := Front(f);
    assert buf[offset] == front[0] && buf[offset + 1] == front[1];
    if f.octets > 0 {
      var b := ToBytes(f.octets, |f.content|);
      assert front[2..] == b;
      assert buf[offset + 2..offset + 2 + f.octets] == front[2..];
      ToBytesValue(f.octets, |f.content|);
    }
  }

  function Size(f: Field): (n: nat) { 2 + f.octets + |f.content| }

  /** The element stands at this position of the buffer. */
  ghost predicate ElementAt(buf: seq<u8>, pos: nat, f: Field) {
    Valid(f) && pos + Size(f) <= |buf| && buf[pos..pos + Size(f)] == Encode(f)
  }

  ghost predicate Reads(buf: seq<u8>, pos: nat, f: Field) {
    && Tlv(buf, pos) == Some(Head(f.tag, 2 + f.octets, |f.content|)) && pos + Size(f) <= |buf|
    && f.content == buf[pos + 2 + f.octets..pos + Size(f)]
  }

  lemma Slices(s: seq<u8>, i: nat, j: nat, k: nat)
    requires i <= j <= k <= |s|
    ensures s[i..k][..j - i] == s[i..j] && s[i..k][j - i..] == s[j..k]
  {
  }

  lemma Join(s: seq<u8>, i: nat, j: nat, k: nat)
    requires i <= j <= k <= |s|
    ensures s[i..k] == s[i..j] + s[j..k]
  {
  }

  lemma {:induction false} ElementReads(buf: seq<u8>, pos: nat, f: Field)
    requires ElementAt(buf, pos, f)
    ensures Reads(buf, pos, f)
  {
    var e := Encode(f);
    assert e[..2 + f.octets] == Front(f) && e[2 + f.octets..] == f.content;
    hide Tlv, Front, Encode;
    Slices(buf, pos, pos + 2 + f.octets, pos + Size(f));
    FrontComplete(buf, pos, f);
  }

  lemma {:induction false} ReadsElement(buf: seq<u8>, pos: nat, f: Field)
    requires Reads(buf, pos, f)
    ensures ElementAt(buf, pos, f)
  {
    hide Tlv, Front;
    FrontSound(buf, pos);
    assert FieldAt(buf, pos, Tlv(buf, pos).value) == f;
    Join(buf, pos, pos + 2 + f.octets, pos + Size(f));
  }

  /** tlv() reads an element exactly where the encoding of one stands. */
  lemma ElementIff(buf: seq<u8>, pos: nat, f: Field)
    ensures ElementAt(buf, pos, f) <==> Reads(buf, pos, f)
  {
    hide *;
    if ElementAt(buf, pos, f) {
      ElementReads(buf, pos, f);
    }
    if Reads(buf, pos, f) {
      ReadsElement(buf, pos, f);
    }
  }

  lemma TlvHere(buf: seq<u8>, pos: nat, f: Field)
    requires ElementAt(buf, pos, f)
    ensures Tlv(buf, pos) == Some(Head(f.tag, 2 + f.octets, |f.content|))
  {
    ElementIff(buf, pos, f);
  }

  /** Whatever tlv() accepts is an element. */
  lemma {:induction false} SomeElement(buf: seq<u8>, pos: nat) returns (f: Field)
    requires Tlv(buf, pos).Some?
    ensures Reads(buf, pos, f) && ElementAt(buf, pos, f)
  {
    FrontSound(buf, pos);
    f := FieldAt(buf, pos, Tlv(buf, pos).value);
    hide Tlv;
    ElementIff(buf, pos, f);
  }

  // ---------------------------------------------------------------- the walk

  const SEQUENCE: u8 := 0x30
  const VERSION: u8 := 0xA0          // [0] EXPLICIT

  /** The loop over the four fields in front of the subject. */
  function Skip(der: seq<u8>, pos: nat, end: nat, n: nat): (r: Option<nat>)
    decreases n
  {
    if n == 0 then Some(pos)
    else
      var h := Tlv(der, pos);
      if h.None? || pos + h.value.header + h.value.length > end then None
      else Skip(der, pos + h.value.header + h.value.length, end, n - 1)
  }

  function Subject(der: seq<u8>): (r: Option<seq<u8>>) {
    var c := Tlv(der, 0);
    if c.None? || c.value.tag != SEQUENCE then None
    else
      var t := Tlv(der, c.value.header);
      if t.None? || t.value.tag != SEQUENCE then None
      else
        var pos := c.value.header + t.value.header;
        var v := Tlv(der, pos);
        if v.None? then None
        else
          var first := if v.value.tag == VERSION then pos + v.value.header + v.value.length else pos;
          var q := Skip(der, first, pos + t.value.length, 4);
          if q.None? then None else SubjectAt(der, q.value)
  }

  function SubjectAt(der: seq<u8>, pos: nat): (r: Option<seq<u8>>) {
    var h := Tlv(der, pos);
    if h.None? || h.value.tag != SEQUENCE || pos + h.value.header + h.value.length > |der| then None
    else Some(der[pos..pos + h.value.header + h.value.length])
  }

  /** subject_name_der(), position by position. */
  method SubjectNameDer(der: seq<u8>) returns (r: Option<seq<u8>>)
    ensures r == Subject(der)
  {
    hide Tlv;
    var h := Tlv(der, 0);
    if h.None? || h.value.tag != SEQUENCE {
      return None;
    }
    var pos: nat := h.value.header;
    h := Tlv(der, pos);
    if h.None? || h.value.tag != SEQUENCE {
      return None;
    }
    pos := pos + h.value.header;
    var end := pos + h.value.length;
    h := Tlv(der, pos);
    if h.None? {
      return None;
    }
    if h.value.tag == VERSION {
      pos := pos + h.value.header + h.value.length;
    }
    ghost var start := pos;
    for i := 0 to 4
      invariant Skip(der, start, end, 4) == Skip(der, pos, end, 4 - i)
    {
      h := Tlv(der, pos);
      if h.None? {
        return None;
      }
      pos := pos + h.value.header + h.value.length;
      if pos > end {
        return None;
      }
    }
    h := Tlv(der, pos);
    if h.None? || h.value.tag != SEQUENCE {
      return None;
    }
    var f := SomeElement(der, pos);
    return Some(der[pos..pos + h.value.header + h.value.length]);
  }

  // ---------------------------------------------------------------- the layout

  ghost predicate ElementsAt(buf: seq<u8>, pos: nat, fs: seq<Field>)
    decreases |fs|
  {
    fs == [] || (ElementAt(buf, pos, fs[0]) && ElementsAt(buf, pos + Size(fs[0]), fs[1..]))
  }

  function Sizes(fs: seq<Field>): (n: nat) { if fs == [] then 0 else Size(fs[0]) + Sizes(fs[1..]) }

  /** Certificate, TBSCertificate, an optional version, and the five fields up to the subject. */
  datatype Layout = Layout(outer: Field, tbs: Field, version: Option<Field>, four: seq<Field>, subject: Field)

  function FieldsFrom(l: Layout): (n: nat) { 2 + l.outer.octets + 2 + l.tbs.octets }

  function FourFrom(l: Layout): (n: nat) { FieldsFrom(l) + if l.version.Some? then Size(l.version.value) else 0 }

  /** The bytes hold this layout; the four fields stay within the TBSCertificate. */
  ghost predicate Holds(der: seq<u8>, l: Layout) {
    && ElementAt(der, 0, l.outer) && l.outer.tag == 0x30
    && ElementAt(der, 2 + l.outer.octets, l.tbs) && l.tbs.tag == 0x30
    && |l.four| == 4
    && (if l.version.Some? then ElementAt(der, FieldsFrom(l), l.version.value) && l.version.value.tag == 0xA0
        else l.four[0].tag != 0xA0)
    && ElementsAt(der, FourFrom(l), l.four) && FourFrom(l) + Sizes(l.four) <= FieldsFrom(l) + |l.tbs.content|
    && ElementAt(der, FourFrom(l) + Sizes(l.four), l.subject) && l.subject.tag == 0x30
  }

  lemma SkipOne(der: seq<u8>, pos: nat, end: nat, n: nat)
    requires n > 0 && Tlv(der, pos).Some? && pos + Tlv(der, pos).value.header + Tlv(der, pos).value.length <= end
    ensures var h := Tlv(der, pos).value; Skip(der, pos, end, n) == Skip(der, pos + h.header + h.length, end, n - 1)
  {
  }

  lemma {:induction false} SkipComplete(der: seq<u8>, pos: nat, fs: seq<Field>, end: nat)
    requires ElementsAt(der, pos, fs) && pos + Sizes(fs) <= end
    ensures Skip(der, pos, end, |fs|) == Some(pos + Sizes(fs))
    decreases |fs|
  {
    hide Tlv, ElementAt;
    if fs != [] {
      var next := pos + Size(fs[0]);
      assert ElementAt(der, pos, fs[0]) && ElementsAt(der, next, fs[1..]) && Sizes(fs) == Size(fs[0]) + Sizes(fs[1..]);
      hide ElementsAt, Sizes, Skip;
      TlvHere(der, pos, fs[0]);
      SkipOne(der, pos, end, |fs|);
      SkipComplete(der, next, fs[1..], end);
    }
  }

  lemma {:induction false} SkipSound(der: seq<u8>, pos: nat, end: nat, n: nat) returns (fs: seq<Field>)
    requires Skip(der, pos, end, n).Some?
    ensures |fs| == n && ElementsAt(der, pos, fs) && Skip(der, pos, end, n) == Some(pos + Sizes(fs))
    ensures n > 0 ==> pos + Sizes(fs) <= end && Tlv(der, pos).Some? && fs[0].tag == Tlv(der, pos).value.tag
    decreases n
  {
    hide *;
    if n == 0 {
      fs := [];
      SkipNone(der, pos, end);
    } else {
      var f := SkipFirst(der, pos, end, n);
      var rest := SkipSound(der, pos + Size(f), end, n - 1);
      fs := [f] + rest;
      ElementsCons(der, pos, f, rest);
      NoSizes(rest);
    }
  }

  lemma {:induction false} SkipNone(der: seq<u8>, pos: nat, end: nat)
    ensures ElementsAt(der, pos, []) && Sizes([]) == 0 && Skip(der, pos, end, 0) == Some(pos)
  {
  }

  lemma {:induction false} SkipFirst(der: seq<u8>, pos: nat, end: nat, n: nat) returns (f: Field)
    requires n > 0 && Skip(der, pos, end, n).Some?
    ensures ElementAt(der, pos, f) && Tlv(der, pos).Some? && f.tag == Tlv(der, pos).value.tag && pos + Size(f) <= end
    ensures Skip(der, pos, end, n) == Skip(der, pos + Size(f), end, n - 1)
  {
    hide Tlv, ElementAt;
    f := SomeElement(der, pos);
  }

  lemma {:induction false} ElementsCons(der: seq<u8>, pos: nat, f: Field, rest: seq<Field>)
    requires ElementAt(der, pos, f) && ElementsAt(der, pos + Size(f), rest)
    ensures ElementsAt(der, pos, [f] + rest) && Sizes([f] + rest) == Size(f) + Sizes(rest)
  {
    hide ElementAt;
    assert ([f] + rest)[1..] == rest;
  }

  lemma {:induction false} NoSizes(fs: seq<Field>)
    ensures fs == [] ==> Sizes(fs) == 0
  {
  }

  lemma SubjectComplete(der: seq<u8>, l: Layout)
    requires Holds(der, l)
    ensures Subject(der) == Some(Encode(l.subject))
  {
    hide Tlv, Skip, ElementAt, Sizes;
    TlvHere(der, 0, l.outer);
    TlvHere(der, 2 + l.outer.octets, l.tbs);
    if l.version.Some? {
      TlvHere(der, FieldsFrom(l), l.version.value);
    } else {
      TlvHere(der, FieldsFrom(l), l.four[0]);
    }
    SkipComplete(der, FourFrom(l), l.four, FieldsFrom(l) + |l.tbs.content|);
    SubjectHere(der, FourFrom(l) + Sizes(l.four), l.subject);
    hide ElementsAt, SubjectAt;
  }

  lemma SubjectHere(der: seq<u8>, pos: nat, f: Field)
    requires ElementAt(der, pos, f) && f.tag == SEQUENCE
    ensures SubjectAt(der, pos) == Some(Encode(f))
  {
    ElementIff(der, pos, f);
    hide Tlv, Encode;
  }

  lemma SubjectSound(der: seq<u8>) returns (l: Layout)
    requires Subject(der).Some?
    ensures Holds(der, l)
  {
    hide Tlv, Skip, ElementAt, Sizes, ElementsAt;
    var outer := SomeElement(der, 0);
    var tbs := SomeElement(der, 2 + outer.octets);
    var pos := 2 + outer.octets + 2 + tbs.octets;
    var first := SomeElement(der, pos);
    var version := if first.tag == VERSION then Some(first) else None;
    var from := if first.tag == VERSION then pos + Size(first) else pos;
    var four := SkipSound(der, from, pos + |tbs.content|, 4);
    var subject := SomeElement(der, from + Sizes(four));
    l := Layout(outer, tbs, version, four, subject);
  }

  /**
    The walk answers exactly when the bytes hold the layout, and then with that layout's subject, tag
    and length included.
   */
  lemma SubjectIff(der: seq<u8>, s: seq<u8>)
    ensures Subject(der) == Some(s) <==> exists l :: Holds(der, l) && s == Encode(l.subject)
  {
    hide Subject, Encode;
    if Subject(der) == Some(s) {
      var l := SubjectSound(der);
      SubjectComplete(der, l);
    }
    forall l | Holds(der, l) && s == Encode(l.subject) ensures Subject(der) == Some(s) {
      SubjectComplete(der, l);
    }
  }

  // ---------------------------------------------------------------- a certificate, encoded from the inside out

  datatype Certificate = Certificate(outerOctets: nat, tbsOctets: nat, fields: seq<Field>, hasVersion: bool,
                                     tbsRest: seq<u8>, signed: seq<u8>)

  predicate AllValid(fs: seq<Field>) { forall i :: 0 <= i < |fs| ==> Valid(fs[i]) }

  function EncodeAll(fs: seq<Field>): (b: seq<u8>)
    requires AllValid(fs)
  {
    if fs == [] then [] else Encode(fs[0]) + EncodeAll(fs[1..])
  }

  function Tbs(c: Certificate): (f: Field)
    requires AllValid(c.fields)
  {
    Field(0x30, c.tbsOctets, EncodeAll(c.fields) + c.tbsRest)
  }

  function Outer(c: Certificate): (f: Field)
    requires AllValid(c.fields) && Valid(Tbs(c))
  {
    Field(0x30, c.outerOctets, Encode(Tbs(c)) + c.signed)
  }

  /** Serial, signature, issuer, validity, subject, behind the version if there is one. */
  predicate WellFormed(c: Certificate) {
    && AllValid(c.fields) && Valid(Tbs(c)) && Valid(Outer(c))
    && |c.fields| == (if c.hasVersion then 6 else 5)
    && (c.fields[0].tag == 0xA0 <==> c.hasVersion)
    && c.fields[|c.fields| - 1].tag == 0x30
  }

  lemma Within(a: seq<u8>, b: seq<u8>, post: seq<u8>, pos: nat, f: Field)
    requires ElementAt(b, pos, f)
    ensures ElementAt(a + b + post, |a| + pos, f)
  {
    hide Encode, Valid;
    var n := Size(f);
    assert (a + b + post)[|a| + pos..|a| + pos + n] == b[pos..pos + n];
  }

  lemma {:induction false} AllWithin(a: seq<u8>, b: seq<u8>, post: seq<u8>, pos: nat, fs: seq<Field>)
    requires ElementsAt(b, pos, fs)
    ensures ElementsAt(a + b + post, |a| + pos, fs)
    decreases |fs|
  {
    if fs != [] {
      hide ElementAt;
      Within(a, b, post, pos, fs[0]);
      AllWithin(a, b, post, pos + Size(fs[0]), fs[1..]);
    }
  }

  lemma {:induction false} EncodedInOrder(fs: seq<Field>)
    requires AllValid(fs)
    ensures ElementsAt(EncodeAll(fs), 0, fs) && |EncodeAll(fs)| == Sizes(fs)
    decreases |fs|
  {
    if fs != [] {
      var e, rest := Encode(fs[0]), EncodeAll(fs[1..]);
      EncodedInOrder(fs[1..]);
      Alone(fs[0]);
      hide ElementAt, Encode;
      Within([], e, rest, 0, fs[0]);
      AllWithin(e, rest, [], 0, fs[1..]);
      assert [] + e + rest == e + rest == e + rest + [];
    }
  }

  lemma Alone(f: Field)
    requires Valid(f)
    ensures ElementAt(Encode(f), 0, f)
  {
    assert Encode(f)[0..Size(f)] == Encode(f);
  }

  lemma {:induction false} SplitAt(buf: seq<u8>, pos: nat, fs: seq<Field>, gs: seq<Field>)
    requires ElementsAt(buf, pos, fs + gs)
    ensures ElementsAt(buf, pos, fs) && ElementsAt(buf, pos + Sizes(fs), gs) && Sizes(fs + gs) == Sizes(fs) + Sizes(gs)
    decreases |fs|
  {
    hide ElementAt;
    if fs == [] {
      assert fs + gs == gs;
    } else {
      assert (fs + gs)[1..] == fs[1..] + gs;
      SplitAt(buf, pos + Size(fs[0]), fs[1..], gs);
    }
  }

  /** The content of an element, where the element stands. */
  lemma ContentAt(f: Field, b: seq<u8>, post: seq<u8>, fs: seq<Field>, pre: seq<u8>)
    requires Valid(f) && f.content == b + post && ElementsAt(b, 0, fs)
    ensures ElementsAt(pre + Encode(f), |pre| + 2 + f.octets, fs)
  {
    hide ElementsAt;
    AllWithin(pre + Front(f), b, post, 0, fs);
    assert pre + Encode(f) == pre + Front(f) + b + post;
  }

  /** Where everything stands in an encoded certificate with anything behind it. */
  lemma Positions(c: Certificate, trailing: seq<u8>)
    requires WellFormed(c)
    ensures var der := Encode(Outer(c)) + trailing;
      && ElementAt(der, 0, Outer(c)) && ElementAt(der, 2 + c.outerOctets, Tbs(c))
      && ElementsAt(der, 2 + c.outerOctets + 2 + c.tbsOctets, c.fields)
      && |Tbs(c).content| >= Sizes(c.fields)
  {
    hide ElementsAt, ElementAt, Encode, Valid;
    var o, t := Outer(c), Tbs(c);
    var der := Encode(o) + trailing;
    Alone(o);
    Within([], Encode(o), trailing, 0, o);
    assert [] + Encode(o) + trailing == der;
    Alone(t);
    InContent(o, Encode(t), c.signed, t);
    Within([], Encode(o), trailing, 2 + o.octets, t);
    EncodedInOrder(c.fields);
    ContentAt(t, EncodeAll(c.fields), c.tbsRest, c.fields, []);
    assert [] + Encode(t) == Encode(t);
    AllInContent(o, Encode(t), c.signed, 2 + t.octets, c.fields);
    AllWithin([], Encode(o), trailing, 2 + o.octets + 2 + t.octets, c.fields);
  }

  lemma InContent(f: Field, b: seq<u8>, post: seq<u8>, g: Field)
    requires Valid(f) && f.content == b + post && ElementAt(b, 0, g)
    ensures ElementAt(Encode(f), 2 + f.octets, g)
  {
    hide ElementAt;
    Within(Front(f), b, post, 0, g);
    assert Encode(f) == Front(f) + b + post;
  }

  lemma AllInContent(f: Field, b: seq<u8>, post: seq<u8>, pos: nat, fs: seq<Field>)
    requires Valid(f) && f.content == b + post && ElementsAt(b, pos, fs)
    ensures ElementsAt(Encode(f), 2 + f.octets + pos, fs)
  {
    hide ElementsAt;
    AllWithin(Front(f), b, post, pos, fs);
    assert Encode(f) == Front(f) + b + post;
  }

  lemma {:induction false} OneElement(der: seq<u8>, pos: nat, fs: seq<Field>)
    requires |fs| == 1 && ElementsAt(der, pos, fs)
    ensures ElementAt(der, pos, fs[0]) && Sizes(fs) == Size(fs[0])
  {
    hide ElementAt;
    assert fs[1..] == [];
  }

  lemma ThreeParts(der: seq<u8>, pos: nat, v: seq<Field>, four: seq<Field>, last: Field)
    requires ElementsAt(der, pos, v + (four + [last]))
    ensures ElementsAt(der, pos, v) && ElementsAt(der, pos + Sizes(v), four)
    ensures ElementAt(der, pos + Sizes(v) + Sizes(four), last)
    ensures Sizes(v) + Sizes(four) <= Sizes(v + (four + [last]))
  {
    hide *;
    SplitAt(der, pos, v, four + [last]);
    SplitAt(der, pos + Sizes(v), four, [last]);
    OneElement(der, pos + Sizes(v) + Sizes(four), [last]);
  }

  lemma Apart(fs: seq<Field>, k: nat)
    requires |fs| == k + 5
    ensures fs == fs[..k] + (fs[k..k + 4] + [fs[k + 4]])
  {
    var four, last := fs[k..k + 4], fs[k + 4];
    assert fs[k..] == four + [last];
    assert fs == fs[..k] + fs[k..];
  }

  /** The version, the four fields and the subject, one after the other. */
  lemma {:induction false} InOrder(der: seq<u8>, pos: nat, fs: seq<Field>, k: nat)
    requires k <= 1 && |fs| == k + 5 && ElementsAt(der, pos, fs)
    ensures k == 1 ==> ElementAt(der, pos, fs[0])
    ensures var q := pos + if k == 1 then Size(fs[0]) else 0;
      && ElementsAt(der, q, fs[k..k + 4]) && ElementAt(der, q + Sizes(fs[k..k + 4]), fs[k + 4])
      && q + Sizes(fs[k..k + 4]) <= pos + Sizes(fs)
  {
    var v := fs[..k];
    assert k == 0 ==> Sizes(v) == 0;
    hide ElementsAt, ElementAt, Sizes, Size;
    Apart(fs, k);
    ThreeParts(der, pos, v, fs[k..k + 4], fs[k + 4]);
    if k == 1 {
      OneElement(der, pos, v);
    }
  }

  /** The subject of an encoded certificate is its last named field, byte for byte. */
  lemma CertificateSubject(c: Certificate, trailing: seq<u8>)
    requires WellFormed(c)
    ensures Subject(Encode(Outer(c)) + trailing) == Some(Encode(c.fields[|c.fields| - 1]))
  {
    hide ElementsAt, ElementAt, Encode, Valid, Subject, Sizes;
    var der := Encode(Outer(c)) + trailing;
    Positions(c, trailing);
    var k := if c.hasVersion then 1 else 0;
    InOrder(der, 2 + c.outerOctets + 2 + c.tbsOctets, c.fields, k);
    var version := if c.hasVersion then Some(c.fields[0]) else None;
    var l := Layout(Outer(c), Tbs(c), version, c.fields[k..k + 4], c.fields[k + 4]);
    assert Holds(der, l);
    SubjectComplete(der, l);
  }
}
