/**
  The ssh client's console output filter, clients/dropbear/sshcs.c: UTF-8 to the local codeset
  and OSC sequences taken out of the stream, byte by byte, in chunks of any size.
 */
module Sshcs {
  import opened Words
  import opened TextConv

  const ESC: u8 := 0x1B
  const BEL: u8 := 0x07
  const CAN: u8 := 0x18
  const SUB: u8 := 0x1A
  const RBRACKET: u8 := 0x5D
  const SEMICOLON: u8 := 0x3B
  const BACKSLASH: u8 := 0x5C
  const TITLE_MAX: nat := 256

  /** The fields that are set once: codeset, convert, osc with a title buffer, and a title callback. */
  datatype Config = Config(cs: Codeset, convert: bool, osc: bool, hasTitle: bool)

  datatype Mode = Text | Esc | Num | Str | StrEsc

  /** The state carried across calls; `title` is title_buf[..tlen]. */
  datatype State = State(dec: Dec, mode: Mode, num: u16, title: seq<u8>, overflow: bool)

  const FRESH := State(Dec(0, 0, 0, false), Text, 0, [], false)

  /** Outside ordinary text the decoder has nothing open: an ESC flushed it, or it is not in use. */
  ghost predicate StateOk(c: Config, s: State) {
    && DecOk(s.dec)
    && (s.mode != Text || !c.convert ==> s.dec.need == 0)
    && (!c.osc ==> s.mode == Text)
    && |s.title| <= TITLE_MAX
  }

  /** What a step leaves: the state, the bytes written, the titles delivered. */
  datatype Done = Done(s: State, out: seq<u8>, titles: seq<seq<u8>>)

  function Emit(c: Config, s: State, b: u8): (r: Done)
    requires DecOk(s.dec)
    ensures r.titles == [] && r.s == s.(dec := r.s.dec) && DecOk(r.s.dec)
    ensures |r.out| <= CHAR_MAX && (s.dec.need == 0 ==> |r.out| <= 1)
  {
    if !c.convert then Done(s, [b], [])
    else var (d, out) := DecByte(s.dec, c.cs, b); Done(s.(dec := d), out, [])
  }

  function OscEnd(c: Config, s: State): (r: Done) {
    Done(s.(mode := Text), [],
         if (s.num == 0 || s.num == 2) && !s.overflow && c.hasTitle then [s.title] else [])
  }

  predicate Digit(b: u8) { 0x30 <= b <= 0x39 }
  predicate Aborts(b: u8) { b == CAN || b == SUB }

  function StepText(c: Config, s: State, b: u8): (r: Done)
    requires DecOk(s.dec)
  {
    if b != ESC then Emit(c, s, b)
    else if c.convert then var (d, out) := Flush(s.dec); Done(s.(dec := d, mode := Esc), out, [])
    else Done(s.(mode := Esc), [], [])
  }

  function StepEsc(c: Config, s: State, b: u8): (r: Done)
    requires DecOk(s.dec)
  {
    if b == RBRACKET then Done(s.(mode := Num, num := 0, title := [], overflow := false), [], [])
    else if b == ESC then Done(s, [ESC], [])
    else var e := Emit(c, s.(mode := Text), b); e.(out := [ESC] + e.out)
  }

  function StepNum(c: Config, s: State, b: u8): (r: Done) {
    if Digit(b) then Done(if s.num < 1000 then s.(num := s.num * 10 + (b - 0x30)) else s, [], [])
    else if b == SEMICOLON then Done(s.(mode := Str), [], [])
    else if b == BEL then OscEnd(c, s.(overflow := true))
    else if b == ESC then Done(s.(mode := StrEsc), [], [])
    else if Aborts(b) then Done(s.(mode := Text), [], [])
    else Done(s.(num := 0xFFFF, mode := Str), [], [])
  }

  function StepStr(c: Config, s: State, b: u8): (r: Done) {
    if b == BEL then OscEnd(c, s)
    else if b == ESC then Done(s.(mode := StrEsc), [], [])
    else if Aborts(b) then Done(s.(mode := Text), [], [])
    else if |s.title| < TITLE_MAX then Done(s.(title := s.title + [b]), [], [])
    else Done(s.(overflow := true), [], [])
  }

  /** One input byte; in StrEsc a byte that is not '\' is looked at again as what follows an ESC. */
  function Step(c: Config, s: State, b: u8): (r: Done)
    requires DecOk(s.dec)
    ensures DecOk(r.s.dec)
    ensures StateOk(c, s) ==> StateOk(c, r.s) && |r.out| <= CHAR_MAX
  {
    if !c.osc then Emit(c, s, b)
    else match s.mode
      case Text => StepText(c, s, b)
      case Esc => StepEsc(c, s, b)
      case Num => StepNum(c, s, b)
      case Str => StepStr(c, s, b)
      case StrEsc => if b == BACKSLASH then OscEnd(c, s) else StepEsc(c, s.(mode := Esc), b)
  }

  /** A whole stream in one pass. */
  function Process(c: Config, s: State, input: seq<u8>): (r: Done)
    requires DecOk(s.dec)
    ensures DecOk(r.s.dec)
    ensures StateOk(c, s) ==> StateOk(c, r.s)
    decreases |input|
  {
    if input == [] then Done(s, [], [])
    else
      var a := Step(c, s, input[0]);
      var b := Process(c, a.s, input[1..]);
      Done(b.s, a.out + b.out, a.titles + b.titles)
  }

  /** Cutting the stream anywhere changes nothing. */
  lemma {:induction false} ProcessSplit(c: Config, s: State, x: seq<u8>, y: seq<u8>)
    requires DecOk(s.dec)
    ensures var a := Process(c, s, x);
            var b := Process(c, a.s, y);
            Process(c, s, x + y) == Done(b.s, a.out + b.out, a.titles + b.titles)
    decreases |x|
  {
    hide Step;
    if x == [] {
      assert x + y == y;
      var b := Process(c, s, y);
      assert [] + b.out == b.out && [] + b.titles == b.titles;
    } else {
      assert (x + y)[1..] == x[1..] + y;
      var a := Step(c, s, x[0]);
      ProcessSplit(c, a.s, x[1..], y);
      var p := Process(c, a.s, x[1..]);
      var q := Process(c, p.s, y);
      assert a.out + (p.out + q.out) == a.out + p.out + q.out;
      assert a.titles + (p.titles + q.titles) == a.titles + p.titles + q.titles;
    }
  }

  lemma {:induction false} ProcessSnoc(c: Config, s: State, x: seq<u8>, b: u8)
    requires DecOk(s.dec)
    ensures var a := Process(c, s, x);
            var e := Step(c, a.s, b);
            Process(c, s, x + [b]) == Done(e.s, a.out + e.out, a.titles + e.titles)
  {
    hide Step;
    ProcessSplit(c, s, x, [b]);
    var a := Process(c, s, x);
    var e := Step(c, a.s, b);
    assert [b][1..] == [];
    assert e.out + [] == e.out && e.titles + [] == e.titles;
  }

  /**
    The loop's bookkeeping: state, output and titles are those of `x` processed in one pass,
    except that after a byte has been put back the mode already says what an ESC means.
   */
  ghost predicate Follows(c: Config, s0: State, d0: seq<seq<u8>>, x: seq<u8>,
                          s: State, out: seq<u8>, d: seq<seq<u8>>, again: bool)
  {
    && StateOk(c, s0) && StateOk(c, s)
    && var p := Process(c, s0, x);
    && out == p.out && d == d0 + p.titles
    && if again then c.osc && p.s.mode == StrEsc && s == p.s.(mode := Esc) else s == p.s
  }

  lemma {:induction false} EmptyFollows(c: Config, s: State, d: seq<seq<u8>>)
    requires StateOk(c, s)
    ensures Follows(c, s, d, [], s, [], d, false)
  {
  }

  lemma {:induction false} FollowsStep(c: Config, s0: State, d0: seq<seq<u8>>, x: seq<u8>, b: u8,
                    s: State, out: seq<u8>, d: seq<seq<u8>>, again: bool)
    requires Follows(c, s0, d0, x, s, out, d, again)
    requires again ==> b != BACKSLASH
    ensures var e := Step(c, s, b);
            |e.out| <= CHAR_MAX && Follows(c, s0, d0, x + [b], e.s, out + e.out, d + e.titles, false)
  {
    hide Process, Emit;
    ProcessSnoc(c, s0, x, b);
    var p := Process(c, s0, x);
    assert Step(c, s, b) == Step(c, p.s, b);
    hide Step;
    var e := Step(c, s, b);
    assert d + e.titles == d0 + (p.titles + e.titles);
  }

  class SshcsOut {
    const c: Config
    var dec: Dec
    var mode: Mode
    var num: u16
    var title: seq<u8>
    var overflow: bool
    var delivered: seq<seq<u8>>      // the titles the callback has been given

    function Value(): State
      reads this
    {
      State(dec, mode, num, title, overflow)
    }

    ghost predicate Valid()
      reads this
    {
      StateOk(c, Value())
    }

    constructor (c: Config)
      ensures Valid() && this.c == c && Value() == FRESH && delivered == []
    {
      this.c := c;
      dec, mode, num, title, overflow := FRESH.dec, Text, 0, [], false;
      delivered := [];
    }

    method EmitByte(b: u8) returns (out: seq<u8>)
      requires DecOk(dec)
      modifies this`dec
      ensures var e := Emit(c, old(Value()), b); Value() == e.s && out == e.out
    {
      if !c.convert { return [b]; }
      var (d, o) := DecByte(dec, c.cs, b);
      dec := d;
      out := o;
    }

    method EndOsc()
      modifies this
      ensures var e := OscEnd(c, old(Value())); Value() == e.s && delivered == old(delivered) + e.titles
    {
      if (num == 0 || num == 2) && !overflow && c.hasTitle {
        delivered := delivered + [title];
      }
      mode := Text;
    }

    /** The ordinary-text and held-ESC cases of the switch. */
    method FeedText(b: u8) returns (out: seq<u8>)
      requires Valid() && (mode == Text || mode == Esc)
      modifies this
      ensures var e := if old(mode) == Text then StepText(c, old(Value()), b) else StepEsc(c, old(Value()), b);
              Value() == e.s && out == e.out && delivered == old(delivered)
    {
      out := [];
      if mode == Text {
        if b != ESC {
          out := EmitByte(b);
          return;
        }
        if c.convert {
          var (d, o) := Flush(dec);
          dec, out := d, o;
        }
        mode := Esc;
      } else if b == RBRACKET {
        mode, num, title, overflow := Num, 0, [], false;
      } else {
        out := [ESC];
        if b != ESC {
          mode := Text;
          var o := EmitByte(b);
          out := out + o;
        }
      }
    }

    /** The cases inside an OSC; `again` asks for the byte to be read once more. */
    method FeedOsc(b: u8) returns (again: bool)
      requires Valid() && (mode == Num || mode == Str || mode == StrEsc)
      modifies this
      ensures again <==> old(mode) == StrEsc && b != BACKSLASH
      ensures again ==> Value() == old(Value()).(mode := Esc) && delivered == old(delivered)
      ensures !again ==>
        var e := match old(mode) case Num => StepNum(c, old(Value()), b) case Str => StepStr(c, old(Value()), b)
                                 case _ => OscEnd(c, old(Value()));
        Value() == e.s && delivered == old(delivered) + e.titles
    {
      again := false;
      if mode == Num {
        FeedNum(b);
      } else if mode == Str {
        if b == BEL {
          EndOsc();
        } else if b == ESC {
          mode := StrEsc;
        } else if Aborts(b) {
          mode := Text;
        } else if |title| < TITLE_MAX {
          title := title + [b];
        } else {
          overflow := true;
        }
      } else if b == BACKSLASH {
        EndOsc();
      } else {
        mode := Esc;
        again := true;
      }
    }

    method FeedNum(b: u8)
      requires Valid() && mode == Num
      modifies this
      ensures var e := StepNum(c, old(Value()), b); Value() == e.s && delivered == old(delivered) + e.titles
    {
      if Digit(b) {
        if num < 1000 { num := num * 10 + (b - 0x30); }
      } else if b == SEMICOLON {
        mode := Str;
      } else if b == BEL {
        overflow := true;
        EndOsc();
      } else if b == ESC {
        mode := StrEsc;
      } else if Aborts(b) {
        mode := Text;
      } else {
        num, mode := 0xFFFF, Str;
      }
    }

    /** One turn of the loop's switch. */
    method Turn(b: u8) returns (out: seq<u8>, again: bool)
      requires Valid()
      modifies this
      ensures Valid()
      ensures again <==> c.osc && old(mode) == StrEsc && b != BACKSLASH
      ensures again ==> Value() == old(Value()).(mode := Esc) && delivered == old(delivered) && out == []
      ensures !again ==>
        var e := Step(c, old(Value()), b); Value() == e.s && out == e.out && delivered == old(delivered) + e.titles
    {
      out, again := [], false;
      if !c.osc {
        out := EmitByte(b);
      } else if mode == Text || mode == Esc {
        out := FeedText(b);
      } else {
        again := FeedOsc(b);
      }
    }

    /**
      sshcs_out_run: convert a prefix of `input` into at most `cap` bytes.  What was consumed is
      processed exactly as in one pass; anything is left only when the output is nearly full,
      and something is always consumed.
     */
    method Run(input: seq<u8>, cap: nat) returns (out: seq<u8>, used: nat)
      requires Valid()
      modifies this
      ensures Valid() && used <= |input| && |out| <= cap
      ensures var p := Process(c, old(Value()), input[..used]);
              Value() == p.s && out == p.out && delivered == old(delivered) + p.titles
      ensures used < |input| ==> cap - |out| < CHAR_MAX
      ensures input != [] && cap >= CHAR_MAX ==> used >= 1
    {
      hide Process, Step;
      out := [];
      var i := 0;
      assert Follows(c, Value(), delivered, input[..i], Value(), out, delivered, false) by {
        EmptyFollows(c, Value(), delivered);
      }
      ghost var again' := false;       // the byte at i has been put back
      while i < |input| && cap - |out| >= CHAR_MAX
        invariant i <= |input| && |out| <= cap
        invariant Follows(c, old(Value()), old(delivered), input[..i], Value(), out, delivered, again')
        invariant again' ==> i < |input| && input[i] != BACKSLASH && cap - |out| >= CHAR_MAX
        invariant i == 0 ==> out == []
        decreases |input| - i, if again' then 0 else 1
      {
        var b := input[i];
        i := i + 1;
        assert input[..i] == input[..i - 1] + [b];
        ghost var was, wasOut, wasDelivered := Value(), out, delivered;
        var o, again := Turn(b);
        if again {
          i := i - 1;
          again' := true;
        } else {
          FollowsStep(c, old(Value()), old(delivered), input[..i - 1], b, was, wasOut, wasDelivered, again');
          out := out + o;
          again' := false;
        }
      }
      used := i;
    }
  }

  const WRITE_BUF: nat := 128

  /**
    A prefix was processed; all but its last chunk was sent, that chunk, of 128 bytes but for a
    character, was not taken, and its titles are out.
   */
  ghost predicate Refused(c: Config, s0: State, input: seq<u8>, s: State, sent: seq<u8>, titles: seq<seq<u8>>,
                          put: (seq<u8>, seq<u8>) -> bool)
    requires DecOk(s0.dec)
  {
    exists n, chunk :: 0 <= n <= |input| && 0 < |chunk| <= 128 && (n < |input| ==> |chunk| > 120) && !put(sent, chunk)
                    && Process(c, s0, input[..n]) == Done(s, sent + chunk, titles)
  }

  /**
    cs_write: the whole of `input` through the filter, 128 bytes of output at a time.  `put`
    says whether a chunk is taken after what was sent before it; the first refusal ends the call.
   */
  method CsWrite(f: SshcsOut, input: seq<u8>, put: (seq<u8>, seq<u8>) -> bool) returns (r: int, sent: seq<u8>)
    requires f.Valid()
    modifies f
    ensures f.Valid() && (r == |input| || r == -1)
    ensures r == |input| ==>
      var p := Process(f.c, old(f.Value()), input);
      sent == p.out && f.Value() == p.s && f.delivered == old(f.delivered) + p.titles
    ensures r == -1 ==>
      && old(f.delivered) <= f.delivered
      && Refused(f.c, old(f.Value()), input, f.Value(), sent, f.delivered[|old(f.delivered)|..], put)
  {
    hide Process;
    sent := [];
    var at := 0;
    assert input[..0] == [];
    ProcessNone(f.c, f.Value());
    while at < |input|
      invariant at <= |input| && f.Valid()
      invariant var p := Process(f.c, old(f.Value()), input[..at]);
                sent == p.out && f.Value() == p.s && f.delivered == old(f.delivered) + p.titles
    {
      var out, used := f.Run(input[at..], WRITE_BUF);
      assert input[..at + used] == input[..at] + input[at..][..used];
      ProcessSplit(f.c, old(f.Value()), input[..at], input[at..][..used]);
      if out != [] && !put(sent, out) {
        ghost var p := Process(f.c, old(f.Value()), input[..at + used]);
        assert f.delivered[|old(f.delivered)|..] == p.titles;
        assert p == Done(f.Value(), sent + out, f.delivered[|old(f.delivered)|..]);
        r := -1;
        return;
      }
      sent := sent + out;
      at := at + used;
    }
    assert input[..at] == input;
    r := at;
  }

  lemma ProcessNone(c: Config, s: State)
    requires DecOk(s.dec)
    ensures Process(c, s, []) == Done(s, [], [])
  {
  }
}
