/** UTF-8 to and from the machine's 8-bit codeset: src/common/textconv.c. */
module TextConv {
  import opened Words

  const CHAR_MAX: nat := 8        // TXT_CHAR_MAX
  const QUESTION: u8 := 0x3F      // '?'

  type Upper = u: seq<u16> | |u| == 128 witness seq(128, _ => 0)

  /** txt_codeset.  `foreign` is the look-alike callback, any bytes at all; None is a NULL pointer. */
  datatype Codeset = Codeset(upper: Option<Upper>, foreign: Option<u32 -> seq<u8>>, utf8: bool)

  /** txt_dec: `need` continuation bytes are still due of a sequence of `len`. */
  datatype Dec = Dec(cp: nat, need: nat, len: nat, c1: bool)

  /** How large the bits gathered so far can be. */
  function Bits(len: nat, need: nat): (r: nat) {
    if len == 2 then 32
    else if len == 3 then if need == 2 then 16 else 1024
    else if need == 3 then 8 else if need == 2 then 512 else 32768
  }

  ghost predicate DecOk(d: Dec) {
    d.need > 0 ==> 2 <= d.len <= 4 && d.need < d.len && d.cp < Bits(d.len, d.need)
  }

  predicate Printable(b: u8) { b >= 0x20 && b != 0x7F && !(0x80 <= b <= 0x9F) }

  /** The first byte at or after 0x80 + i that stands for `cp`; 0 when there is none. */
  function FindUpper(upper: Upper, cp: nat, i: nat): (b: u8)
    requires 0x20 <= i <= 0x80
    ensures b != 0 ==> 0x80 + i <= b && upper[b - 0x80] == cp && forall j :: i <= j < b - 0x80 ==> upper[j] != cp
    ensures b == 0 ==> forall j :: i <= j < 0x80 ==> upper[j] != cp
    decreases 0x80 - i
  {
    if i == 0x80 then 0 else if upper[i] == cp then 0x80 + i else FindUpper(upper, cp, i + 1)
  }

  /** tc_byte */
  function ByteFor(cs: Codeset, cp: nat): (b: u8) {
    match cs.upper
    case None => if 0xA0 <= cp <= 0xFF then cp else 0
    case Some(u) => FindUpper(u, cp, 0x20)
  }

  /** UTF-8 of a code point; tc_enc for the ones past ASCII. */
  function Encode(cp: nat): (s: seq<u8>)
    requires cp < 0x11_0000
    ensures 1 <= |s| <= 4
  {
    if cp < 0x80 then [cp]
    else if cp < 0x800 then [0xC0 + cp / 64, 0x80 + cp % 64]
    else if cp < 0x1_0000 then [0xE0 + cp / 4096, 0x80 + cp / 64 % 64, 0x80 + cp % 64]
    else [0xF0 + cp / 262144, 0x80 + cp / 4096 % 64, 0x80 + cp / 64 % 64, 0x80 + cp % 64]
  }

  /** The look-alike text, cut at CHAR_MAX and with every control made '?'. */
  function Clean(s: seq<u8>): (r: seq<u8>)
    ensures |r| <= CHAR_MAX && |r| <= |s|
    ensures forall i :: 0 <= i < |r| ==> Printable(r[i])
  {
    var n := if |s| > CHAR_MAX then CHAR_MAX else |s|;
    seq(n, i requires 0 <= i < n => if Printable(s[i]) then s[i] else QUESTION)
  }

  /** tc_map: one code point past ASCII for display. */
  function MapChar(c1: bool, cs: Codeset, cp: nat): (r: seq<u8>)
    requires 0x80 <= cp < 0x11_0000
    ensures 1 <= |r| <= CHAR_MAX
  {
    if cp < 0xA0 then [if c1 then cp else QUESTION]
    else if cs.utf8 then Encode(cp)
    else if ByteFor(cs, cp) != 0 then [ByteFor(cs, cp)]
    else if cs.foreign.Some? && Clean(cs.foreign.value(cp)) != [] then Clean(cs.foreign.value(cp))
    else [QUESTION]
  }

  /** tc_valid: not overlong, not a surrogate, not past U+10FFFF. */
  predicate ValidSeq(cp: nat, len: nat) {
    cp >= (if len == 2 then 0x80 else if len == 3 then 0x800 else 0x1_0000)
    && cp <= 0x10_FFFF && !(0xD800 <= cp <= 0xDFFF)
  }

  /** tc_lead: start a sequence, or None. */
  function Lead(d: Dec, b: u8): (r: Option<Dec>) {
    if 0xC2 <= b <= 0xDF then Some(Dec(b - 0xC0, 1, 2, d.c1))
    else if 0xE0 <= b <= 0xEF then Some(Dec(b - 0xE0, 2, 3, d.c1))
    else if 0xF0 <= b <= 0xF4 then Some(Dec(b - 0xF0, 3, 4, d.c1))
    else None
  }

  /** A byte that does not continue a sequence. */
  function DecFresh(d: Dec, b: u8): (r: (Dec, seq<u8>))
    requires d.need == 0
    ensures DecOk(r.0) && |r.1| <= 1
  {
    if b < 0x80 then (d, [b])
    else match Lead(d, b) case Some(d') => (d', []) case None => (d, [QUESTION])
  }

  /** txt_dec_byte */
  function DecByte(d: Dec, cs: Codeset, b: u8): (r: (Dec, seq<u8>))
    requires DecOk(d)
    ensures DecOk(r.0) && |r.1| <= CHAR_MAX
    ensures d.need == 0 ==> |r.1| <= 1
  {
    if d.need > 0 then
      if 0x80 <= b < 0xC0 then
        var cp := d.cp * 64 + (b - 0x80);            // b & 0x3F
        if d.need > 1 then (Dec(cp, d.need - 1, d.len, d.c1), [])
        else (Dec(cp, 0, d.len, d.c1), if ValidSeq(cp, d.len) then MapChar(d.c1, cs, cp) else [QUESTION])
      else
        var (d', out) := DecFresh(d.(need := 0), b);
        (d', [QUESTION] + out)
    else DecFresh(d, b)
  }

  /** txt_dec_flush */
  function Flush(d: Dec): (r: (Dec, seq<u8>))
    ensures r.0.need == 0 && |r.1| <= 1
  {
    if d.need == 0 then (d, []) else (d.(need := 0), [QUESTION])
  }

  /** A decoder fed a run of bytes. */
  function DecStream(d: Dec, cs: Codeset, s: seq<u8>): (r: (Dec, seq<u8>))
    requires DecOk(d)
    ensures DecOk(r.0)
    decreases |s|
  {
    if s == [] then (d, [])
    else
      var (d1, o1) := DecByte(d, cs, s[0]);
      var (d2, o2) := DecStream(d1, cs, s[1..]);
      (d2, o1 + o2)
  }

  /** A Unicode scalar value. */
  type Char = cp: nat | cp <= 0x10_FFFF && !(0xD800 <= cp <= 0xDFFF)

  /** What one character shows as. */
  function Shown(c1: bool, cs: Codeset, cp: Char): (r: seq<u8>) {
    if cp < 0x80 then [cp] else MapChar(c1, cs, cp)
  }

  lemma {:induction false} DecStreamOne(d: Dec, cs: Codeset, b: u8, rest: seq<u8>)
    requires DecOk(d)
    ensures var (d1, o1) := DecByte(d, cs, b);
            DecStream(d, cs, [b] + rest) == (DecStream(d1, cs, rest).0, o1 + DecStream(d1, cs, rest).1)
    ensures DecByte(d, cs, b).1 == [] ==> DecStream(d, cs, [b] + rest) == DecStream(DecByte(d, cs, b).0, cs, rest)
  {
    assert ([b] + rest)[1..] == rest;
    var d1 := DecByte(d, cs, b).0;
    assert [] + DecStream(d1, cs, rest).1 == DecStream(d1, cs, rest).1;
  }

  /** A continuation byte that does not complete the sequence only adds its six bits. */
  lemma {:induction false} Continue(d: Dec, cs: Codeset, x: nat, rest: seq<u8>)
    requires DecOk(d) && d.need > 1 && x < 64
    ensures DecStream(d, cs, [0x80 + x] + rest) == DecStream(Dec(d.cp * 64 + x, d.need - 1, d.len, d.c1), cs, rest)
  {
    hide DecStream, MapChar;
    DecStreamOne(d, cs, 0x80 + x, rest);
  }

  lemma {:induction false} Complete(d: Dec, cs: Codeset, x: nat, rest: seq<u8>)
    requires DecOk(d) && d.need == 1 && x < 64 && ValidSeq(d.cp * 64 + x, d.len)
    ensures var d' := Dec(d.cp * 64 + x, 0, d.len, d.c1);
            DecStream(d, cs, [0x80 + x] + rest) ==
            (DecStream(d', cs, rest).0, MapChar(d.c1, cs, d.cp * 64 + x) + DecStream(d', cs, rest).1)
  {
    hide DecStream, MapChar;
    DecStreamOne(d, cs, 0x80 + x, rest);
  }

  lemma {:induction false} Sextets(cp: nat)
    ensures cp / 64 * 64 + cp % 64 == cp
    ensures cp / 4096 * 64 + cp / 64 % 64 == cp / 64
    ensures cp / 262144 * 64 + cp / 4096 % 64 == cp / 4096
  {
    assert cp / 64 / 64 == cp / 4096;
    assert cp / 4096 / 64 == cp / 262144;
  }

  /** Section 3 of RFC 3629: an encoded character decodes to that character, and leaves nothing open. */
  lemma {:induction false} DecodeChar(d: Dec, cs: Codeset, cp: Char, rest: seq<u8>) returns (d': Dec)
    requires d.need == 0
    ensures d'.need == 0 && d'.c1 == d.c1
    ensures DecStream(d, cs, Encode(cp) + rest) ==
            (DecStream(d', cs, rest).0, Shown(d.c1, cs, cp) + DecStream(d', cs, rest).1)
  {
    hide DecStream, DecByte, MapChar;
    Sextets(cp);
    var x0, x1, x2 := cp % 64, cp / 64 % 64, cp / 4096 % 64;
    var s := Encode(cp);
    if cp < 0x80 {
      d' := d;
      AsciiChar(d, cs, cp, rest);
    } else if cp < 0x800 {
      d' := Dec(cp, 0, 2, d.c1);
      assert s + rest == [0xC0 + cp / 64] + ([0x80 + x0] + rest);
      LeadByte(d, cs, 0xC0 + cp / 64, [0x80 + x0] + rest);
      Complete(Dec(cp / 64, 1, 2, d.c1), cs, x0, rest);
    } else if cp < 0x1_0000 {
      d' := Dec(cp, 0, 3, d.c1);
      assert s + rest == [0xE0 + cp / 4096] + ([0x80 + x1] + ([0x80 + x0] + rest));
      LeadByte(d, cs, 0xE0 + cp / 4096, [0x80 + x1] + ([0x80 + x0] + rest));
      Continue(Dec(cp / 4096, 2, 3, d.c1), cs, x1, [0x80 + x0] + rest);
      Complete(Dec(cp / 64, 1, 3, d.c1), cs, x0, rest);
    } else {
      d' := Dec(cp, 0, 4, d.c1);
      assert s + rest == [0xF0 + cp / 262144] + ([0x80 + x2] + ([0x80 + x1] + ([0x80 + x0] + rest)));
      LeadByte(d, cs, 0xF0 + cp / 262144, [0x80 + x2] + ([0x80 + x1] + ([0x80 + x0] + rest)));
      Continue(Dec(cp / 262144, 3, 4, d.c1), cs, x2, [0x80 + x1] + ([0x80 + x0] + rest));
      Continue(Dec(cp / 4096, 2, 4, d.c1), cs, x1, [0x80 + x0] + rest);
      Complete(Dec(cp / 64, 1, 4, d.c1), cs, x0, rest);
    }
  }

  lemma {:induction false} AsciiChar(d: Dec, cs: Codeset, b: u8, rest: seq<u8>)
    requires d.need == 0 && b < 0x80
    ensures DecStream(d, cs, [b] + rest) == (DecStream(d, cs, rest).0, [b] + DecStream(d, cs, rest).1)
  {
    DecStreamOne(d, cs, b, rest);
  }

  lemma {:induction false} LeadByte(d: Dec, cs: Codeset, b: u8, rest: seq<u8>)
    requires d.need == 0 && Lead(d, b).Some?
    ensures DecOk(Lead(d, b).value) && DecStream(d, cs, [b] + rest) == DecStream(Lead(d, b).value, cs, rest)
  {
    DecStreamOne(d, cs, b, rest);
  }

  function EncodeAll(cps: seq<Char>): (s: seq<u8>) {
    if cps == [] then [] else Encode(cps[0]) + EncodeAll(cps[1..])
  }

  function ShownAll(c1: bool, cs: Codeset, cps: seq<Char>): (s: seq<u8>)
    decreases |cps|
  {
    if cps == [] then [] else Shown(c1, cs, cps[0]) + ShownAll(c1, cs, cps[1..])
  }

  /** Valid UTF-8 text comes out character by character, and the decoder ends with nothing open. */
  lemma {:induction false} DecodeText(d: Dec, cs: Codeset, cps: seq<Char>)
    requires d.need == 0
    ensures var (d', out) := DecStream(d, cs, EncodeAll(cps)); d'.need == 0 && out == ShownAll(d.c1, cs, cps)
    decreases |cps|
  {
    if cps != [] {
      var d1 := DecodeChar(d, cs, cps[0], EncodeAll(cps[1..]));
      DecodeText(d1, cs, cps[1..]);
    }
  }

  /** txt_local_to_utf8: one local byte as UTF-8. */
  function LocalToUtf8(cs: Codeset, b: u8): (s: seq<u8>)
    ensures 1 <= |s| <= 3
  {
    if cs.utf8 || b < 0x80 then [b]
    else
      var cp := if b < 0xA0 || cs.upper.None? then b else cs.upper.value[b - 0x80];
      if cp == 0 then [QUESTION] else if cp < 0x80 then LowPair(cp) else Encode(cp)
  }

  /** The two-byte form the source writes for any code point under 0x800, ASCII included. */
  function LowPair(cp: nat): (s: seq<u8>)
    requires cp < 0x80
  {
    [0xC0 + cp / 64, 0x80 + cp % 64]
  }

  /**
    What a local byte is sent as: itself under UTF-8 or in ASCII, a question mark if it stands for
    nothing, else two or three bytes that carry its code point, six bits in each behind the first.
   */
  lemma LocalToUtf8Means(cs: Codeset, b: u8)
    ensures var r, cp := LocalToUtf8(cs, b), CodePoint(cs, b);
      if cs.utf8 || b < 0x80 then r == [b]
      else if cp == 0 then r == [0x3F]
      else if cp < 0x800 then Carries2(r, cp) else Carries3(r, cp)
  {
    var cp := CodePoint(cs, b);
    Sextets(cp);
    assert cp < 0x1_0000;
  }

  predicate Carries2(r: seq<u8>, cp: nat) {
    && |r| == 2 && 0xC0 <= r[0] <= 0xDF && 0x80 <= r[1] <= 0xBF
    && cp == (r[0] as int - 0xC0) * 64 + (r[1] as int - 0x80)
  }

  predicate Carries3(r: seq<u8>, cp: nat) {
    && |r| == 3 && 0xE0 <= r[0] <= 0xEF && 0x80 <= r[1] <= 0xBF && 0x80 <= r[2] <= 0xBF
    && cp == (r[0] as int - 0xE0) * 4096 + (r[1] as int - 0x80) * 64 + (r[2] as int - 0x80)
  }

  /** The code point a local byte stands for; 0 is none. */
  function CodePoint(cs: Codeset, b: u8): (cp: nat) {
    if b < 0xA0 || cs.upper.None? then b else cs.upper.value[b - 0x80]
  }

  predicate IsSurrogate(cp: nat) { 0xD800 <= cp <= 0xDFFF }

  /** No earlier byte of the codeset stands for the same character. */
  predicate FirstOfItsKind(cs: Codeset, b: u8) {
    forall c: u8 :: 0xA0 <= c < b ==> CodePoint(cs, c) != CodePoint(cs, b)
  }

  /** What of a local byte survives its own UTF-8. */
  predicate Survives(c1: bool, cs: Codeset, b: u8) {
    || b < 0x80
    || (!cs.utf8 && 0x80 <= b < 0xA0 && c1)
    || (!cs.utf8 && b >= 0xA0 && CodePoint(cs, b) >= 0xA0 && !IsSurrogate(CodePoint(cs, b)) && FirstOfItsKind(cs, b))
  }

  lemma {:induction false} CharRoundTrip(d: Dec, cs: Codeset, b: u8)
    requires d.need == 0 && !cs.utf8 && b >= 0x80 && CodePoint(cs, b) >= 0x80 && !IsSurrogate(CodePoint(cs, b))
    ensures DecStream(d, cs, LocalToUtf8(cs, b)).1 == MapChar(d.c1, cs, CodePoint(cs, b))
  {
    var cp: Char := CodePoint(cs, b);
    var d' := DecodeChar(d, cs, cp, []);
    assert LocalToUtf8(cs, b) == Encode(cp) + [];
    assert MapChar(d.c1, cs, cp) + [] == MapChar(d.c1, cs, cp);
    hide MapChar, Encode;
  }

  lemma ByteIsFirst(cs: Codeset, b: u8)
    requires b >= 0xA0 && CodePoint(cs, b) >= 0xA0
    ensures ByteFor(cs, CodePoint(cs, b)) != 0 && (ByteFor(cs, CodePoint(cs, b)) == b <==> FirstOfItsKind(cs, b))
  {
    var cp := CodePoint(cs, b);
    assert ByteFor(cs, cp) != 0 && CodePoint(cs, ByteFor(cs, cp)) == cp;
    if ByteFor(cs, cp) == b {
      forall c: u8 | 0xA0 <= c < b ensures CodePoint(cs, c) != cp { assert c as int - 0x80 < b as int - 0x80; }
    }
  }

  /** A byte that stands for nothing, for ASCII or for a surrogate comes back as question marks. */
  lemma {:induction false} LostByte(d: Dec, cs: Codeset, b: u8)
    requires d.need == 0 && !cs.utf8 && b >= 0xA0 && (CodePoint(cs, b) < 0x80 || IsSurrogate(CodePoint(cs, b)))
    ensures DecStream(d, cs, LocalToUtf8(cs, b)).1 != [b]
  {
    var cp, s := CodePoint(cs, b), LocalToUtf8(cs, b);
    if cp == 0 {
      AsciiChar(d, cs, QUESTION, []);
      assert s == [QUESTION] + [];
    } else if cp < 0x80 {
      assert s == [s[0]] + [s[1]] && [s[1]] == [s[1]] + [];
      DecStreamOne(d, cs, s[0], [s[1]]);
      DecStreamOne(d, cs, s[1], []);
      hide DecStream;
      assert DecByte(d, cs, s[0]) == (d, [QUESTION]);
    } else {
      SurrogateShown(d, cs, cp);
      assert s == Encode(cp);
    }
  }

  lemma {:induction false} SurrogateShown(d: Dec, cs: Codeset, cp: nat)
    requires d.need == 0 && IsSurrogate(cp)
    ensures DecStream(d, cs, Encode(cp)).1 == [QUESTION]
  {
    Sextets(cp);
    var x0, x1 := cp % 64, cp / 64 % 64;
    assert Encode(cp) == [0xE0 + cp / 4096] + ([0x80 + x1] + ([0x80 + x0] + []));
    hide DecStream, MapChar, Encode, DecByte;
    LeadByte(d, cs, 0xE0 + cp / 4096, [0x80 + x1] + ([0x80 + x0] + []));
    Continue(Dec(cp / 4096, 2, 3, d.c1), cs, x1, [0x80 + x0] + []);
    Spoilt(Dec(cp / 64, 1, 3, d.c1), cs, x0);
  }

  /** A sequence that completes to no character. */
  lemma {:induction false} Spoilt(d: Dec, cs: Codeset, x: nat)
    requires DecOk(d) && d.need == 1 && x < 64 && !ValidSeq(d.cp * 64 + x, d.len)
    ensures DecStream(d, cs, [0x80 + x] + []).1 == [QUESTION]
  {
    DecStreamOne(d, cs, 0x80 + x, []);
    hide MapChar;
    StreamNone(DecByte(d, cs, 0x80 + x).0, cs);
    hide DecStream;
  }

  lemma StreamNone(d: Dec, cs: Codeset)
    requires DecOk(d)
    ensures DecStream(d, cs, []) == (d, [])
  {
  }

  /**
    Typing a byte and showing what comes back gives the same byte exactly when it is ASCII, or
    a C1 control the decoder lets through, or stands for a character past those of which it is
    the codeset's first byte; under a UTF-8 codeset only ASCII bytes do.
   */
  lemma {:induction false} LocalRoundTrip(d: Dec, cs: Codeset, b: u8)
    requires d.need == 0
    ensures DecStream(d, cs, LocalToUtf8(cs, b)).1 == [b] <==> Survives(d.c1, cs, b)
  {
    if b < 0x80 {
      AsciiChar(d, cs, b, []);
      assert [b] + [] == [b];
    } else if cs.utf8 {
      DecStreamOne(d, cs, b, []);
      assert [b] + [] == [b];
    } else if b >= 0xA0 && (CodePoint(cs, b) < 0x80 || IsSurrogate(CodePoint(cs, b))) {
      LostByte(d, cs, b);
    } else {
      CharRoundTrip(d, cs, b);
      if b >= 0xA0 && CodePoint(cs, b) >= 0xA0 {
        ByteIsFirst(cs, b);
      }
      hide DecStream, LocalToUtf8, ByteFor, FirstOfItsKind;
    }
  }

  /** A codeset that loses a byte: its first upper byte stands for a letter of ASCII. */
  lemma SomeByteIsLost(d: Dec)
    requires d.need == 0
    ensures var cs := Codeset(Some(seq(128, i => 0x41)), None, false);
            FirstOfItsKind(cs, 0xA0) && DecStream(d, cs, LocalToUtf8(cs, 0xA0)).1 != [0xA0]
  {
    var upper: Upper := seq(128, i => 0x41);
    LocalRoundTrip(d, Codeset(Some(upper), None, false), 0xA0);
  }

  /** ISO-8859-1 gives every byte from 0xA0 up such a character. */
  lemma {:induction false} Latin1RoundTrip(d: Dec, cs: Codeset, b: u8)
    requires d.need == 0 && !cs.utf8 && cs.upper.None? && b >= 0xA0
    ensures DecStream(d, cs, LocalToUtf8(cs, b)).1 == [b]
  {
    LocalRoundTrip(d, cs, b);
  }

  // ---------------------------------------------------------------- what a character looks like

  /** Not text: the controls of ASCII, DEL, and the C1 controls. */
  predicate IsControl(b: u8) { b < 0x20 || b == 0x7F || 0x80 <= b <= 0x9F }

  /**
    How a character may be shown: ASCII as itself; a C1 control only where it is let through; under
    UTF-8 as its own encoding; otherwise as the first byte that stands for it, else as up to eight
    bytes of look-alike text without controls, else as a question mark.
   */
  ghost predicate Displays(c1: bool, cs: Codeset, cp: Char, r: seq<u8>) {
    if cp < 0x80 then r == [cp]
    else if cp < 0xA0 then r == [if c1 then cp else 0x3F]
    else if cs.utf8 then r == Encode(cp)
    else if exists b: u8 :: b >= 0xA0 && CodePoint(cs, b) == cp then
      |r| == 1 && r[0] >= 0xA0 && CodePoint(cs, r[0]) == cp && FirstOfItsKind(cs, r[0])
    else if cs.foreign.Some? && cs.foreign.value(cp) != [] then LooksLike(cs.foreign.value(cp), r)
    else r == [0x3F]
  }

  predicate LooksLike(t: seq<u8>, r: seq<u8>) {
    && |r| == (if |t| < 8 then |t| else 8)
    && forall i :: 0 <= i < |r| ==> r[i] == if IsControl(t[i]) then 0x3F else t[i]
  }

  lemma CleanLooksLike(t: seq<u8>)
    ensures LooksLike(t, Clean(t))
  {
  }

  /** The byte looked up is there exactly when some byte stands for the character. */
  lemma ByteForMeans(cs: Codeset, cp: nat)
    requires cp >= 0xA0
    ensures var b := ByteFor(cs, cp);
      if b == 0 then forall c: u8 :: c >= 0xA0 ==> CodePoint(cs, c) != cp
      else b >= 0xA0 && CodePoint(cs, b) == cp && FirstOfItsKind(cs, b)
  {
    var b := ByteFor(cs, cp);
    if b == 0 {
      forall c: u8 | c >= 0xA0 ensures CodePoint(cs, c) != cp {
        assert 0x20 <= c as int - 0x80 < 0x80;
      }
    } else {
      forall c: u8 | 0xA0 <= c < b ensures CodePoint(cs, c) != CodePoint(cs, b) {
        assert 0x20 <= c as int - 0x80 < b as int - 0x80;
      }
    }
  }

  lemma ShownDisplays(c1: bool, cs: Codeset, cp: Char)
    ensures Displays(c1, cs, cp, Shown(c1, cs, cp))
  {
    if cp >= 0xA0 {
      ByteForMeans(cs, cp);
      if cs.foreign.Some? { CleanLooksLike(cs.foreign.value(cp)); }
    }
    hide ByteFor, Clean, LooksLike, FirstOfItsKind, CodePoint, Encode;
  }

  /** Section 3 of RFC 3629, at the ends of its ranges and on the examples of its section 7. */
  lemma EncodingExamples()
    ensures Encode(0x7F) == [0x7F] && Encode(0x80) == [0xC2, 0x80] && Encode(0x7FF) == [0xDF, 0xBF]
    ensures Encode(0x800) == [0xE0, 0xA0, 0x80] && Encode(0xFFFF) == [0xEF, 0xBF, 0xBF]
    ensures Encode(0x1_0000) == [0xF0, 0x90, 0x80, 0x80] && Encode(0x10_FFFF) == [0xF4, 0x8F, 0xBF, 0xBF]
    ensures Encode(0x41) == [0x41] && Encode(0x2262) == [0xE2, 0x89, 0xA2] && Encode(0x0391) == [0xCE, 0x91]
  {
  }

  /** Under a UTF-8 codeset text without C1 controls comes out as it went in. */
  lemma {:induction false} Utf8PassesThrough(d: Dec, cs: Codeset, cps: seq<Char>)
    requires d.need == 0 && cs.utf8 && forall i :: 0 <= i < |cps| ==> !(0x80 <= cps[i] < 0xA0)
    ensures DecStream(d, cs, EncodeAll(cps)).1 == EncodeAll(cps)
  {
    DecodeText(d, cs, cps);
    ShownAsIs(d.c1, cs, cps);
  }

  lemma {:induction false} ShownAsIs(c1: bool, cs: Codeset, cps: seq<Char>)
    requires cs.utf8 && forall i :: 0 <= i < |cps| ==> !(0x80 <= cps[i] < 0xA0)
    ensures ShownAll(c1, cs, cps) == EncodeAll(cps)
    decreases |cps|
  {
    if cps != [] {
      ShownDisplays(c1, cs, cps[0]);
      ShownAsIs(c1, cs, cps[1..]);
    }
  }

  // ---------------------------------------------------------------- any bytes at all

  /** How many continuation bytes a lead byte announces; 0 for a byte that leads nothing. */
  function Announced(b: u8): (n: nat)
    ensures n <= 3
  {
    if 0xC2 <= b <= 0xDF then 1 else if 0xE0 <= b <= 0xEF then 2 else if 0xF0 <= b <= 0xF4 then 3 else 0
  }

  /** How many of the first n bytes continue a sequence, up to the first that does not. */
  function Continuing(s: seq<u8>, n: nat): (k: nat)
    ensures k <= n && k <= |s|
    decreases n
  {
    if n == 0 || s == [] || !(0x80 <= s[0] < 0xC0) then 0 else 1 + Continuing(s[1..], n - 1)
  }

  /** How much of the front is no character: a byte, and what continues it as far as it announced. */
  function BrokenLen(s: seq<u8>): (n: nat)
    requires s != []
    ensures 1 <= n <= |s|
  {
    1 + Continuing(s[1..], Announced(s[0]))
  }

  ghost predicate Begins(s: seq<u8>, cp: Char) { Encode(cp) <= s }

  datatype Unit = Character(cp: Char) | Broken

  /** Any bytes, cut into characters and broken pieces from the left. */
  ghost function Units(s: seq<u8>): (us: seq<Unit>)
    decreases |s|
  {
    if s == [] then []
    else if exists cp: Char :: Begins(s, cp) then
      var cp: Char :| Begins(s, cp); [Character(cp)] + Units(s[|Encode(cp)|..])
    else [Broken] + Units(s[BrokenLen(s)..])
  }

  ghost function UnitsShown(c1: bool, cs: Codeset, us: seq<Unit>): (r: seq<u8>)
    decreases |us|
  {
    if us == [] then []
    else (match us[0] case Character(cp) => Shown(c1, cs, cp) case Broken => [0x3F]) + UnitsShown(c1, cs, us[1..])
  }

  /** Decoding a stream and then closing it. */
  function Whole(d: Dec, cs: Codeset, s: seq<u8>): (out: seq<u8>)
    requires DecOk(d)
  {
    var (e, o) := DecStream(d, cs, s);
    o + Flush(e).1
  }

  const FRESH_DEC := Dec(0, 0, 0, false)

  /** txt_utf8_to_local: as many whole characters as the buffer takes, which is all of them exactly when they fit. */
  method Utf8ToLocal(cs: Codeset, input: seq<u8>, cap: nat) returns (out: seq<u8>)
    ensures |out| <= cap && out <= Whole(FRESH_DEC, cs, input)
    ensures out == Whole(FRESH_DEC, cs, input) <==> |Whole(FRESH_DEC, cs, input)| <= cap
  {
    out := [];
    var d := FRESH_DEC;
    assert input[0..] == input && [] + Whole(d, cs, input) == Whole(d, cs, input);
    hide Whole;
    for i := 0 to |input|
      invariant DecOk(d) && |out| <= cap && Whole(FRESH_DEC, cs, input) == out + Whole(d, cs, input[i..])
    {
      assert input[i..] == [input[i]] + input[i + 1..];
      WholeOne(d, cs, input[i], input[i + 1..]);
      var (e, o) := DecByte(d, cs, input[i]);
      Regroup(out, o, Whole(e, cs, input[i + 1..]));
      if |o| > cap - |out| {
        return;
      }
      d, out := e, out + o;
    }
    assert input[|input|..] == [];
    WholeNone(d, cs);
    if |Flush(d).1| <= cap - |out| {
      out := out + Flush(d).1;
    }
  }

  lemma {:induction false} WholeNone(d: Dec, cs: Codeset)
    requires DecOk(d)
    ensures Whole(d, cs, []) == Flush(d).1
  {
    StreamNone(d, cs);
  }

  lemma {:induction false} WholeOne(d: Dec, cs: Codeset, b: u8, rest: seq<u8>)
    requires DecOk(d)
    ensures Whole(d, cs, [b] + rest) == DecByte(d, cs, b).1 + Whole(DecByte(d, cs, b).0, cs, rest)
  {
    hide DecByte, Flush;
    DecStreamOne(d, cs, b, rest);
    var (e, o) := DecStream(DecByte(d, cs, b).0, cs, rest);
    hide DecStream;
    assert (DecByte(d, cs, b).1 + o) + Flush(e).1 == DecByte(d, cs, b).1 + (o + Flush(e).1);
  }

  /** The code point after some more continuation bytes, six bits each. */
  function Gathered(cp: nat, t: seq<u8>): (r: nat)
    decreases |t|
  {
    if t == [] then cp else Gathered(cp * 64 + t[0] % 64, t[1..])
  }

  lemma {:induction false} GatherOn(cp: nat, s: seq<u8>, n: nat)
    requires 1 <= n <= |s|
    ensures Gathered(cp, s[..n]) == Gathered(cp * 64 + s[0] % 64, s[1..][..n - 1])
    ensures n == 1 ==> Gathered(cp, s[..n]) == cp * 64 + s[0] % 64
  {
    assert s[..n][1..] == s[1..][..n - 1];
  }

  lemma {:induction false} BrokenByEnd(d: Dec, cs: Codeset)
    requires DecOk(d) && d.need > 0
    ensures Whole(d, cs, []) == [0x3F] + Whole(d.(need := 0), cs, [])
  {
    StreamNone(d, cs);
    StreamNone(d.(need := 0), cs);
  }

  /** A byte that does not continue the sequence ends it with a question mark, and is then read on its own. */
  lemma {:induction false} BrokenByOther(d: Dec, cs: Codeset, b: u8, rest: seq<u8>)
    requires DecOk(d) && d.need > 0 && !(0x80 <= b < 0xC0)
    ensures Whole(d, cs, [b] + rest) == [0x3F] + Whole(d.(need := 0), cs, [b] + rest)
  {
    var e := d.(need := 0);
    WholeOne(d, cs, b, rest);
    WholeOne(e, cs, b, rest);
    ReadAgain(d, cs, b);
    hide Whole, DecByte;
    Regroup([0x3F], DecByte(e, cs, b).1, Whole(DecByte(e, cs, b).0, cs, rest));
  }

  lemma {:induction false} ReadAgain(d: Dec, cs: Codeset, b: u8)
    requires DecOk(d) && d.need > 0 && !(0x80 <= b < 0xC0)
    ensures var e := d.(need := 0);
      DecByte(d, cs, b).0 == DecByte(e, cs, b).0 && DecByte(d, cs, b).1 == [0x3F] + DecByte(e, cs, b).1
  {
    hide DecFresh;
  }

  lemma {:induction false} Regroup(a: seq<u8>, b: seq<u8>, c: seq<u8>)
    ensures (a + b) + c == a + (b + c)
  {
  }

  lemma {:induction false} GoesOn(d: Dec, cs: Codeset, b: u8, rest: seq<u8>)
    requires DecOk(d) && d.need > 0 && 0x80 <= b < 0xC0
    ensures var cp := d.cp * 64 + b % 64;
      && (d.need > 1 ==> DecOk(Dec(cp, d.need - 1, d.len, d.c1))
                         && Whole(d, cs, [b] + rest) == Whole(Dec(cp, d.need - 1, d.len, d.c1), cs, rest))
      && (d.need == 1 && !ValidSeq(cp, d.len) ==>
            Whole(d, cs, [b] + rest) == [0x3F] + Whole(Dec(cp, 0, d.len, d.c1), cs, rest))
  {
    assert b % 64 == b - 0x80;
    WholeOne(d, cs, b, rest);
    hide Whole, MapChar;
    var e := DecByte(d, cs, b).0;
    assert d.need > 1 ==> [] + Whole(e, cs, rest) == Whole(e, cs, rest);
  }

  /** A sequence begun that is no character however it goes on shows as one question mark. */
  lemma {:induction false} BrokenRest(d: Dec, cs: Codeset, s: seq<u8>) returns (d': Dec)
    requires DecOk(d) && d.need > 0
    requires Continuing(s, d.need) == d.need ==> !ValidSeq(Gathered(d.cp, s[..d.need]), d.len)
    ensures d'.need == 0 && d'.c1 == d.c1
    ensures Whole(d, cs, s) == [0x3F] + Whole(d', cs, s[Continuing(s, d.need)..])
    decreases d.need
  {
    hide Whole, ValidSeq, DecOk;
    if s == [] {
      d' := d.(need := 0);
      BrokenByEnd(d, cs);
      assert s[0..] == [];
    } else if !(0x80 <= s[0] < 0xC0) {
      d' := d.(need := 0);
      assert s == [s[0]] + s[1..] && s[0..] == s;
      BrokenByOther(d, cs, s[0], s[1..]);
    } else {
      var cp, k := d.cp * 64 + s[0] % 64, Continuing(s[1..], d.need - 1);
      assert s == [s[0]] + s[1..];
      Further(s, k);
      GoesOn(d, cs, s[0], s[1..]);
      if k == d.need - 1 { GatherOn(d.cp, s, d.need); }
      hide Gathered;
      if d.need == 1 {
        d' := Dec(cp, 0, d.len, d.c1);
      } else {
        d' := BrokenRest(Dec(cp, d.need - 1, d.len, d.c1), cs, s[1..]);
      }
    }
  }

  /** A lead byte and what continues it, gathered to a character, are the encoding of that character. */
  lemma {:induction false} GatheredEncodes(s: seq<u8>)
    requires s != [] && Announced(s[0]) > 0
    requires var n := Announced(s[0]);
      Continuing(s[1..], n) == n && ValidSeq(Gathered(LeadBits(s[0]), s[1..1 + n]), n + 1)
    ensures var n := Announced(s[0]); Encode(Gathered(LeadBits(s[0]), s[1..1 + n])) == s[..1 + n]
  {
    var n, t := Announced(s[0]), s[1..1 + Announced(s[0])];
    ContinuingAt(s[1..], n);
    GatheredFew(LeadBits(s[0]), t);
    assert forall i :: 0 <= i < n ==> t[i] == s[1..][i];
    hide Encode, Gathered, Continuing;
    if n == 1 {
      Encode2(s[0], t[0]);
      assert s[..2] == [s[0], t[0]];
    } else if n == 2 {
      Encode3(s[0], t[0], t[1]);
      assert s[..3] == [s[0], t[0], t[1]];
    } else {
      Encode4(s[0], t[0], t[1], t[2]);
      assert s[..4] == [s[0], t[0], t[1], t[2]];
    }
  }

  lemma Encode2(b0: u8, b1: u8)
    requires 0xC2 <= b0 <= 0xDF && 0x80 <= b1 < 0xC0
    ensures var cp := b0 % 32 * 64 + b1 % 64; cp >= 0x80 ==> Encode(cp) == [b0, b1]
  {
    DivModUnique(b0 % 32 * 64 + b1 % 64, 64, b0 % 32, b1 % 64);
  }

  lemma Encode3(b0: u8, b1: u8, b2: u8)
    requires 0xE0 <= b0 <= 0xEF && 0x80 <= b1 < 0xC0 && 0x80 <= b2 < 0xC0
    ensures var cp := (b0 % 16 * 64 + b1 % 64) * 64 + b2 % 64; cp >= 0x800 ==> Encode(cp) == [b0, b1, b2]
  {
    var hi := b0 % 16 * 64 + b1 % 64;
    var cp := hi * 64 + b2 % 64;
    DivModUnique(cp, 64, hi, b2 % 64);
    DivModUnique(hi, 64, b0 % 16, b1 % 64);
    DivModUnique(cp, 4096, b0 % 16, b1 % 64 * 64 + b2 % 64);
  }

  lemma Encode4(b0: u8, b1: u8, b2: u8, b3: u8)
    requires 0xF0 <= b0 <= 0xF4 && 0x80 <= b1 < 0xC0 && 0x80 <= b2 < 0xC0 && 0x80 <= b3 < 0xC0
    ensures var cp := ((b0 % 8 * 64 + b1 % 64) * 64 + b2 % 64) * 64 + b3 % 64;
      0x1_0000 <= cp < 0x11_0000 ==> Encode(cp) == [b0, b1, b2, b3]
  {
    var top := b0 % 8 * 64 + b1 % 64;
    var hi := top * 64 + b2 % 64;
    var cp := hi * 64 + b3 % 64;
    Sextets4(b0 % 8, b1 % 64, b2 % 64, b3 % 64);
    assert b0 == 0xF0 + b0 % 8 && b1 == 0x80 + b1 % 64 && b2 == 0x80 + b2 % 64 && b3 == 0x80 + b3 % 64;
  }

  lemma Sextets4(x3: nat, x2: nat, x1: nat, x0: nat)
    requires x2 < 64 && x1 < 64 && x0 < 64
    ensures var cp := ((x3 * 64 + x2) * 64 + x1) * 64 + x0;
      cp % 64 == x0 && cp / 64 % 64 == x1 && cp / 4096 % 64 == x2 && cp / 262144 == x3
  {
    var top := x3 * 64 + x2;
    var hi := top * 64 + x1;
    var cp := hi * 64 + x0;
    DivModUnique(cp, 64, hi, x0);
    DivModUnique(hi, 64, top, x1);
    DivModUnique(top, 64, x3, x2);
    DivModUnique(cp, 4096, top, x1 * 64 + x0);
    DivModUnique(cp, 262144, x3, x2 * 4096 + x1 * 64 + x0);
  }

  function LeadBits(b: u8): (r: nat) { if b >= 0xF0 then b % 8 else if b >= 0xE0 then b % 16 else b % 32 }

  lemma {:induction false} ContinuingAt(t: seq<u8>, n: nat)
    requires Continuing(t, n) == n
    ensures n <= |t| && forall i :: 0 <= i < n ==> 0x80 <= t[i] < 0xC0
    decreases n
  {
    if n > 0 { ContinuingAt(t[1..], n - 1); }
  }

  lemma {:induction false} GatheredFew(cp: nat, t: seq<u8>)
    requires 1 <= |t| <= 3
    ensures |t| == 1 ==> Gathered(cp, t) == cp * 64 + t[0] % 64
    ensures |t| == 2 ==> Gathered(cp, t) == (cp * 64 + t[0] % 64) * 64 + t[1] % 64
    ensures |t| == 3 ==> Gathered(cp, t) == ((cp * 64 + t[0] % 64) * 64 + t[1] % 64) * 64 + t[2] % 64
    decreases |t|
  {
    if |t| > 1 { GatheredFew(cp * 64 + t[0] % 64, t[1..]); } else { assert t[1..] == []; }
  }

  /** A byte past ASCII on its own: a lead byte opens a sequence, any other is a question mark. */
  lemma {:induction false} LeadRead(d: Dec, cs: Codeset, b: u8, rest: seq<u8>)
    requires d.need == 0 && b >= 0x80
    ensures var n := Announced(b);
      && (n == 0 ==> Whole(d, cs, [b] + rest) == [0x3F] + Whole(d, cs, rest))
      && (n > 0 ==> var e := Dec(LeadBits(b), n, n + 1, d.c1);
                    DecOk(e) && Whole(d, cs, [b] + rest) == Whole(e, cs, rest))
  {
    LeadDecoded(d, cs, b);
    hide Whole, DecByte, Announced, LeadBits, DecOk;
    WholeOne(d, cs, b, rest);
    NoneBefore(Whole(DecByte(d, cs, b).0, cs, rest));
  }

  lemma {:induction false} NoneBefore(w: seq<u8>)
    ensures [] + w == w
  {
  }

  lemma {:induction false} LeadDecoded(d: Dec, cs: Codeset, b: u8)
    requires d.need == 0 && b >= 0x80
    ensures DecOk(d)
    ensures var n := Announced(b);
      && (n == 0 ==> DecByte(d, cs, b).0 == d && DecByte(d, cs, b).1 == [0x3F])
      && (n > 0 ==> var e := Dec(LeadBits(b), n, n + 1, d.c1);
                    DecOk(e) && DecByte(d, cs, b).0 == e && DecByte(d, cs, b).1 == [])
  {
    hide MapChar;
  }

  /** Bytes at the front that are no character show as one question mark, and the stream goes on behind them. */
  lemma {:induction false} BrokenShown(d: Dec, cs: Codeset, s: seq<u8>) returns (d': Dec)
    requires d.need == 0 && s != [] && forall cp: Char :: !Begins(s, cp)
    ensures d'.need == 0 && d'.c1 == d.c1
    ensures Whole(d, cs, s) == [0x3F] + Whole(d', cs, s[BrokenLen(s)..])
  {
    assert s == [s[0]] + s[1..];
    AsciiBegins(s);
    var n := Announced(s[0]);
    assert n == 0 ==> Continuing(s[1..], n) == 0;
    LeadRead(d, cs, s[0], s[1..]);
    hide Whole, DecByte, Announced, LeadBits, Continuing;
    if n == 0 {
      d' := d;
    } else {
      var e := Dec(LeadBits(s[0]), n, n + 1, d.c1);
      GatheredBegins(s);
      d' := BrokenRest(e, cs, s[1..]);
      Further(s, Continuing(s[1..], n));
    }
  }

  lemma {:induction false} Further(s: seq<u8>, k: nat)
    requires 1 + k <= |s|
    ensures s[1..][k..] == s[1 + k..]
  {
  }

  lemma {:induction false} GatheredBegins(s: seq<u8>)
    requires s != [] && Announced(s[0]) > 0
    ensures var n := Announced(s[0]);
      Continuing(s[1..], n) == n && ValidSeq(Gathered(LeadBits(s[0]), s[1..][..n]), n + 1) ==>
        exists cp: Char :: Begins(s, cp)
  {
    var n := Announced(s[0]);
    if Continuing(s[1..], n) == n && ValidSeq(Gathered(LeadBits(s[0]), s[1..][..n]), n + 1) {
      assert s[1..][..n] == s[1..1 + n];
      GatheredEncodes(s);
      hide Gathered, Encode, Continuing;
      assert Begins(s, Gathered(LeadBits(s[0]), s[1..1 + n]));
    }
  }

  lemma {:induction false} AsciiBegins(s: seq<u8>)
    requires s != []
    ensures s[0] < 0x80 ==> Begins(s, s[0])
  {
  }

  /**
    Any bytes whatever, decoded and flushed: each character shows as the codeset shows it, and each
    broken piece, a stray byte or a sequence cut short or overlong, as one question mark.
   */
  lemma {:induction false} EveryStream(d: Dec, cs: Codeset, s: seq<u8>)
    requires d.need == 0
    ensures Whole(d, cs, s) == UnitsShown(d.c1, cs, Units(s))
    decreases |s|
  {
    if s == [] {
      StreamNone(d, cs);
    } else if exists cp: Char :: Begins(s, cp) {
      var us := Units(s);
      var cp := us[0].cp;
      assert Begins(s, cp) && us[1..] == Units(s[|Encode(cp)|..]);
      var rest := s[|Encode(cp)|..];
      var d' := WholeChar(d, cs, cp, rest);
      assert s == Encode(cp) + rest;
      hide Whole, Shown;
      EveryStream(d', cs, rest);
    } else {
      var us, rest := Units(s), s[BrokenLen(s)..];
      assert us[0] == Broken && us[1..] == Units(rest);
      var d' := BrokenShown(d, cs, s);
      hide Whole;
      EveryStream(d', cs, rest);
    }
  }

  lemma {:induction false} WholeChar(d: Dec, cs: Codeset, cp: Char, rest: seq<u8>) returns (d': Dec)
    requires d.need == 0
    ensures d'.need == 0 && d'.c1 == d.c1
    ensures Whole(d, cs, Encode(cp) + rest) == Shown(d.c1, cs, cp) + Whole(d', cs, rest)
  {
    hide DecStream, Encode, Shown, Flush;
    d' := DecodeChar(d, cs, cp, rest);
    var (e, o) := DecStream(d', cs, rest);
    assert (Shown(d.c1, cs, cp) + o) + Flush(e).1 == Shown(d.c1, cs, cp) + (o + Flush(e).1);
  }
}
