/**
  What the console filter takes out, said on the whole stream: an OSC is ESC ] digits, a
  separator, text and an end, found by searching, not by a state machine.
 */
module SshcsScan {
  import opened Words
  import opened TextConv
  import opened Sshcs

  /** What is left of the stream: a byte of text, an ESC, or the place where an ESC cut a character short. */
  datatype Tok = Byte(b: u8) | Break | Escape

  datatype Scanned = Scanned(toks: seq<Tok>, titles: seq<seq<u8>>)

  /** An OSC read from just after its ESC ]: where the stream goes on, and the title it sets, if any. */
  datatype Osc = Osc(next: nat, title: Option<seq<u8>>)

  predicate Decimal(b: u8) { 0x30 <= b <= 0x39 }

  /** CAN or SUB: the sequence is given up. */
  predicate Abandons(b: u8) { b == 0x18 || b == 0x1A }

  /** Length of the longest run of digits at the front. */
  function DigitRun(r: seq<u8>): (n: nat)
    ensures n <= |r| && (forall i :: 0 <= i < n ==> Decimal(r[i])) && (n < |r| ==> !Decimal(r[n]))
  {
    if r == [] || !Decimal(r[0]) then 0 else 1 + DigitRun(r[1..])
  }

  predicate Ends(b: u8) { b == 0x07 || b == 0x1B || Abandons(b) }

  /** Length of the text up to the first byte that ends or abandons the string. */
  function TextRun(r: seq<u8>): (n: nat)
    ensures n <= |r| && (forall i :: 0 <= i < n ==> !Ends(r[i])) && (n < |r| ==> Ends(r[n]))
  {
    if r == [] || Ends(r[0]) then 0 else 1 + TextRun(r[1..])
  }

  function DigitOf(b: u8): (d: nat)
    requires Decimal(b)
    ensures d < 10
  {
    b - 0x30
  }

  /** Decimal value, with no limit. */
  function Value(ds: seq<u8>): (v: nat)
    requires forall i :: 0 <= i < |ds| ==> Decimal(ds[i])
  {
    if ds == [] then 0 else Value(ds[..|ds| - 1]) * 10 + DigitOf(ds[|ds| - 1])
  }

  /** OSC 0 and 2 set the title, unless the text is too long to keep. */
  function TitleOf(ds: seq<u8>, text: seq<u8>): (t: Option<seq<u8>>)
    requires forall i :: 0 <= i < |ds| ==> Decimal(ds[i])
  {
    if (Value(ds) == 0 || Value(ds) == 2) && |text| <= 256 then Some(text) else None
  }

  /** An ESC inside an OSC at `e`: with '\' it is the end, otherwise the stream goes on at that ESC. */
  function AtEsc(r: seq<u8>, e: nat, title: Option<seq<u8>>): (o: Osc)
    requires e < |r|
    ensures e <= o.next <= |r|
  {
    if e + 1 == |r| then Osc(|r|, None)
    else if r[e + 1] == 0x5C then Osc(e + 2, title)
    else Osc(e, None)
  }

  function OscAt(r: seq<u8>): (o: Osc)
    ensures o.next <= |r|
  {
    var n := DigitRun(r);
    if n == |r| then Osc(n, None)
    else if r[n] == 0x07 || Abandons(r[n]) then Osc(n + 1, None)
    else if r[n] == 0x1B then AtEsc(r, n, TitleOf(r[..n], []))
    else
      var o := StringAt(r[n + 1..], r[..n], r[n] == 0x3B);
      Osc(n + 1 + o.next, o.title)
  }

  /** The string of an OSC and its end; text after anything but a ';' never makes a title. */
  function StringAt(r: seq<u8>, ds: seq<u8>, titled: bool): (o: Osc)
    requires forall i :: 0 <= i < |ds| ==> Decimal(ds[i])
    ensures o.next <= |r|
  {
    var n := TextRun(r);
    var title := if titled then TitleOf(ds, r[..n]) else None;
    if n == |r| then Osc(n, None)
    else if r[n] == 0x07 then Osc(n + 1, title)
    else if r[n] == 0x1B then AtEsc(r, n, title)
    else Osc(n + 1, None)
  }

  function ToList(t: Option<seq<u8>>, wanted: bool): (l: seq<seq<u8>>) {
    if t.Some? && wanted then [t.value] else []
  }

  function Scan(input: seq<u8>, wanted: bool): (r: Scanned)
    decreases |input|, 1
  {
    if input == [] then Scanned([], [])
    else if input[0] != 0x1B then
      var k := Scan(input[1..], wanted); Scanned([Byte(input[0])] + k.toks, k.titles)
    else
      var k := ScanEsc(input, wanted); Scanned([Break] + k.toks, k.titles)
  }

  /** What an ESC becomes besides the break in the text: held back at the end, passed on, or an OSC that goes. */
  function ScanEsc(input: seq<u8>, wanted: bool): (r: Scanned)
    requires input != []
    decreases |input|, 0
  {
    if |input| == 1 then Scanned([], [])
    else if input[1] != 0x5D then
      var k := Scan(input[1..], wanted); Scanned([Escape] + k.toks, k.titles)
    else
      var o := OscAt(input[2..]);
      var k := Scan(input[2 + o.next..], wanted); Scanned(k.toks, ToList(o.title, wanted) + k.titles)
  }

  /** The bytes written for what is left. */
  function Render(c: Config, d: Dec, toks: seq<Tok>): (out: seq<u8>)
    requires DecOk(d)
    decreases |toks|
  {
    if toks == [] then []
    else match toks[0]
      case Byte(b) =>
        if !c.convert then [b] + Render(c, d, toks[1..])
        else var (d', o) := DecByte(d, c.cs, b); o + Render(c, d', toks[1..])
      case Break =>
        if !c.convert then Render(c, d, toks[1..])
        else var (d', o) := Flush(d); o + Render(c, d', toks[1..])
      case Escape => [0x1B] + Render(c, d, toks[1..])
  }

  // ---------------------------------------------------------------- inside an OSC

  function Saturate(num: u16, ds: seq<u8>): (n: u16)
    requires forall i :: 0 <= i < |ds| ==> Decimal(ds[i])
    decreases |ds|
  {
    if ds == [] then num else Saturate(if num < 1000 then num * 10 + DigitOf(ds[0]) else num, ds[1..])
  }

  lemma {:induction false} DigitsRun(c: Config, s: State, ds: seq<u8>)
    requires c.osc && DecOk(s.dec) && s.mode == Num && forall i :: 0 <= i < |ds| ==> Decimal(ds[i])
    ensures Process(c, s, ds) == Done(s.(num := Saturate(s.num, ds)), [], [])
    decreases |ds|
  {
    if ds != [] {
      DigitsRun(c, Step(c, s, ds[0]).s, ds[1..]);
    }
  }

  lemma {:induction false} SaturateSnoc(num: u16, ds: seq<u8>, b: u8)
    requires Decimal(b) && forall i :: 0 <= i < |ds| ==> Decimal(ds[i])
    ensures var n := Saturate(num, ds); Saturate(num, ds + [b]) == if n < 1000 then n * 10 + DigitOf(b) else n
    decreases |ds|
  {
    if ds == [] {
      assert [b][1..] == [];
    } else {
      assert (ds + [b])[1..] == ds[1..] + [b];
      SaturateSnoc(if num < 1000 then num * 10 + DigitOf(ds[0]) else num, ds[1..], b);
    }
  }

  /** The 16-bit counter tells 0 and 2 from every other number, however many digits there are. */
  lemma {:induction false} SaturateIsValue(ds: seq<u8>)
    requires forall i :: 0 <= i < |ds| ==> Decimal(ds[i])
    ensures var n := Saturate(0, ds);
            (n == Value(ds) && n < 10000) || (n >= 1000 && Value(ds) >= 1000)
    decreases |ds|
  {
    if ds != [] {
      var init := ds[..|ds| - 1];
      SaturateIsValue(init);
      SaturateSnoc(0, init, ds[|ds| - 1]);
      assert ds == init + [ds[|ds| - 1]];
    }
  }

  lemma {:induction false} StringByte(c: Config, s: State, b: u8)
    requires c.osc && StateOk(c, s) && s.mode == Str && !Ends(b)
    ensures var a := Step(c, s, b);
      && a.out == [] && a.titles == [] && StateOk(c, a.s)
      && a.s == if |s.title| < TITLE_MAX then s.(title := s.title + [b]) else s.(overflow := true)
  {
    hide StepText, StepEsc, StepNum, Emit;
  }

  lemma {:induction false} StringRun(c: Config, s: State, t: seq<u8>)
    requires c.osc && StateOk(c, s) && s.mode == Str && forall i :: 0 <= i < |t| ==> !Ends(t[i])
    ensures var p := Process(c, s, t);
            && p.out == [] && p.titles == [] && p.s == s.(title := p.s.title, overflow := p.s.overflow)
            && (p.s.overflow <==> s.overflow || |s.title| + |t| > TITLE_MAX)
            && (!p.s.overflow ==> p.s.title == s.title + t)
    decreases |t|
  {
    if t == [] {
      assert s.title + t == s.title;
    } else {
      assert !Ends(t[0]);
      StringByte(c, s, t[0]);
      ProcessFirst(c, s, t);
      hide Step, Process, Ends;
      var a := Step(c, s, t[0]);
      StringRun(c, a.s, t[1..]);
      StringJoin(s, a.s, Process(c, a.s, t[1..]).s, t);
    }
  }

  /** One byte kept or too many, and then the rest. */
  lemma StringJoin(s: State, a: State, q: State, t: seq<u8>)
    requires t != [] && |s.title| <= TITLE_MAX
    requires a == if |s.title| < TITLE_MAX then s.(title := s.title + [t[0]]) else s.(overflow := true)
    requires q == a.(title := q.title, overflow := q.overflow)
    requires (q.overflow <==> a.overflow || |a.title| + |t[1..]| > TITLE_MAX)
    requires !q.overflow ==> q.title == a.title + t[1..]
    ensures q == s.(title := q.title, overflow := q.overflow)
    ensures q.overflow <==> s.overflow || |s.title| + |t| > TITLE_MAX
    ensures !q.overflow ==> q.title == s.title + t
  {
    assert s.title + t == s.title + [t[0]] + t[1..];
  }

  /** The stream from inside an OSC onwards writes what the stream from `next` onwards writes. */
  ghost predicate GoesOn(c: Config, s: State, r: seq<u8>, next: nat, titles: seq<seq<u8>>, t: State)
    requires next <= |r|
  {
    && StateOk(c, s) && StateOk(c, t) && t.mode == Text && t.dec == s.dec
    && var p, q := Process(c, s, r), Process(c, t, r[next..]);
    && p.out == q.out && p.titles == titles + q.titles
  }

  /** Splitting after `k` silent bytes. */
  lemma {:induction false} Silent(c: Config, s: State, r: seq<u8>, k: nat)
    requires StateOk(c, s) && k <= |r| && Process(c, s, r[..k]).out == []
    ensures var a := Process(c, s, r[..k]);
            var b := Process(c, a.s, r[k..]);
            Process(c, s, r) == Done(b.s, b.out, a.titles + b.titles)
  {
    hide Step;
    ProcessSplit(c, s, r[..k], r[k..]);
    assert r[..k] + r[k..] == r;
    var b := Process(c, Process(c, s, r[..k]).s, r[k..]);
    assert [] + b.out == b.out;
  }

  lemma {:induction false} StepFirst(c: Config, s: State, r: seq<u8>)
    requires StateOk(c, s) && r != [] && Step(c, s, r[0]).out == []
    ensures var a := Step(c, s, r[0]);
            var b := Process(c, a.s, r[1..]);
            Process(c, s, r) == Done(b.s, b.out, a.titles + b.titles)
  {
    hide Step;
    var b := Process(c, Step(c, s, r[0]).s, r[1..]);
    assert [] + b.out == b.out;
  }

  /** From the ESC at the front of `r`, inside an OSC whose end would deliver `titles`. */
  lemma {:induction false} EscInside(c: Config, s: State, r: seq<u8>, title: Option<seq<u8>>) returns (t: State)
    requires c.osc && StateOk(c, s) && (s.mode == Num || s.mode == Str) && r != [] && r[0] == ESC
    requires OscEnd(c, s).titles == ToList(title, c.hasTitle)
    ensures var o := AtEsc(r, 0, title); GoesOn(c, s, r, o.next, ToList(o.title, c.hasTitle), t)
  {
    t := s.(mode := Text);
    hide DecByte, Emit;
    if |r| == 1 {
      StepFirst(c, s, r);
      assert r[1..] == [] && r[|r|..] == [];
    } else if r[1] == BACKSLASH {
      EscEnds(c, s, r);
    } else {
      EscPutBack(c, s, r);
    }
  }

  lemma {:induction false} EscEnds(c: Config, s: State, r: seq<u8>)
    requires c.osc && StateOk(c, s) && (s.mode == Num || s.mode == Str) && |r| > 1 && r[0] == ESC && r[1] == BACKSLASH
    ensures GoesOn(c, s, r, 2, OscEnd(c, s).titles, s.(mode := Text))
  {
    hide DecByte, Emit, Process;
    StepFirst(c, s, r);
    StepFirst(c, s.(mode := StrEsc), r[1..]);
    assert r[1..][1..] == r[2..];
  }

  /** The byte after the ESC is read as after any other ESC. */
  lemma {:induction false} EscPutBack(c: Config, s: State, r: seq<u8>)
    requires c.osc && StateOk(c, s) && (s.mode == Num || s.mode == Str) && |r| > 1 && r[0] == ESC && r[1] != BACKSLASH
    ensures GoesOn(c, s, r, 0, [], s.(mode := Text))
  {
    var t, u := s.(mode := Text), s.(mode := Esc);
    SameFromEsc(c, s, r[1..]);
    hide DecByte, Emit, Process;
    StepFirst(c, s, r);
    StepFirst(c, t, r);
    assert r[0..] == r;
  }

  lemma {:induction false} SameFromEsc(c: Config, s: State, r: seq<u8>)
    requires c.osc && StateOk(c, s) && s.dec.need == 0 && r != [] && r[0] != BACKSLASH
    ensures Process(c, s.(mode := StrEsc), r) == Process(c, s.(mode := Esc), r)
  {
    assert Step(c, s.(mode := StrEsc), r[0]) == Step(c, s.(mode := Esc), r[0]);
    hide Step;
  }

  /** Going on from a tail is going on from the whole. */
  lemma {:induction false} GoesOnShift(c: Config, s: State, r: seq<u8>, k: nat, next: nat, titles: seq<seq<u8>>,
                                       t: State)
    requires StateOk(c, s) && k <= |r| && next <= |r| - k
    requires var a := Process(c, s, r[..k]); a.out == [] && a.titles == [] && a.s.dec == s.dec
                                             && GoesOn(c, a.s, r[k..], next, titles, t)
    ensures GoesOn(c, s, r, k + next, titles, t)
  {
    hide Process, Step;
    Silent(c, s, r, k);
    assert r[k..][next..] == r[k + next..];
    var b := Process(c, Process(c, s, r[..k]).s, r[k..]);
    assert [] + b.titles == b.titles;
  }

  /** One byte `b` that ends the OSC at the front of `r`, back in ordinary text. */
  lemma {:induction false} EndInside(c: Config, s: State, r: seq<u8>) returns (t: State)
    requires c.osc && StateOk(c, s) && r != []
    requires Step(c, s, r[0]).s.mode == Text && Step(c, s, r[0]).s.dec == s.dec && Step(c, s, r[0]).out == []
    ensures GoesOn(c, s, r, 1, Step(c, s, r[0]).titles, t)
  {
    t := Step(c, s, r[0]).s;
    StepFirst(c, s, r);
  }

  lemma {:induction false} NothingMore(c: Config, s: State, r: seq<u8>) returns (t: State)
    requires c.osc && StateOk(c, s) && s.dec.need == 0 && Process(c, s, r).out == [] && Process(c, s, r).titles == []
    ensures GoesOn(c, s, r, |r|, [], t)
  {
    t := s.(mode := Text);
    assert r[|r|..] == [];
  }

  /** The string part, from after the separator. */
  lemma {:induction false} StringPart(c: Config, s: State, r: seq<u8>, ds: seq<u8>, titled: bool) returns (t: State)
    requires c.osc && StateOk(c, s) && s.mode == Str && s.title == [] && !s.overflow
    requires forall i :: 0 <= i < |ds| ==> Decimal(ds[i])
    requires (s.num == 0 || s.num == 2) <==> titled && (Value(ds) == 0 || Value(ds) == 2)
    ensures var o := StringAt(r, ds, titled);
            GoesOn(c, s, r, o.next, ToList(o.title, c.hasTitle), t)
  {
    hide Process, StateOk, GoesOn, Step, OscEnd, Value, TitleOf;
    var n := TextRun(r);
    StringState(c, s, r[..n], ds, titled);
    if n == |r| {
      assert r[..n] == r;
      t := NothingMore(c, s, r);
    } else {
      var title := if titled then TitleOf(ds, r[..n]) else None;
      t := StringEnd(c, Process(c, s, r[..n]).s, r[n..], title);
      var o := EndAt(r[n..], title);
      GoesOnShift(c, s, r, n, o.next, ToList(o.title, c.hasTitle), t);
    }
  }

  /** The machine after a string: what its end would deliver is the title of that string. */
  lemma {:induction false} StringState(c: Config, s: State, text: seq<u8>, ds: seq<u8>, titled: bool)
    requires c.osc && StateOk(c, s) && s.mode == Str && s.title == [] && !s.overflow
    requires forall i :: 0 <= i < |text| ==> !Ends(text[i])
    requires forall i :: 0 <= i < |ds| ==> Decimal(ds[i])
    requires (s.num == 0 || s.num == 2) <==> titled && (Value(ds) == 0 || Value(ds) == 2)
    ensures s.dec.need == 0
    ensures var p := Process(c, s, text);
            && p.out == [] && p.titles == [] && StateOk(c, p.s) && p.s.mode == Str && p.s.dec == s.dec
            && OscEnd(c, p.s).titles == ToList(if titled then TitleOf(ds, text) else None, c.hasTitle)
  {
    StringRun(c, s, text);
    assert [] + text == text;
  }

  /** What the byte that ends or abandons the string does, from that byte on. */
  function EndAt(r: seq<u8>, title: Option<seq<u8>>): (o: Osc)
    requires r != []
    ensures o.next <= |r|
  {
    if r[0] == BEL then Osc(1, title) else if r[0] == ESC then AtEsc(r, 0, title) else Osc(1, None)
  }

  lemma {:induction false} StringEnd(c: Config, s: State, r: seq<u8>, title: Option<seq<u8>>) returns (t: State)
    requires c.osc && StateOk(c, s) && s.mode == Str && r != [] && Ends(r[0])
    requires OscEnd(c, s).titles == ToList(title, c.hasTitle)
    ensures var o := EndAt(r, title); GoesOn(c, s, r, o.next, ToList(o.title, c.hasTitle), t)
  {
    hide Process, GoesOn;
    if r[0] == ESC {
      t := EscInside(c, s, r, title);
    } else {
      t := EndInside(c, s, r);
    }
  }

  /** From just after ESC ], the machine does what the search says. */
  lemma {:induction false} OscRuns(c: Config, s: State, r: seq<u8>) returns (t: State)
    requires c.osc && StateOk(c, s) && s.mode == Num && s.num == 0 && s.title == [] && !s.overflow
    ensures GoesOn(c, s, r, OscAt(r).next, ToList(OscAt(r).title, c.hasTitle), t)
  {
    hide Process, StateOk, GoesOn, Step, OscEnd, Value, TitleOf;
    var n := DigitRun(r);
    var ds := r[..n];
    NumberState(c, s, ds);
    var a := Process(c, s, ds).s;
    if n == |r| {
      assert r[..n] == r;
      t := NothingMore(c, s, r);
    } else if !Ends(r[n]) {
      SeparatorState(c, s, ds, r[n]);
      var b := Process(c, s, ds + [r[n]]).s;
      assert r[..n + 1] == ds + [r[n]];
      t := StringPart(c, b, r[n + 1..], ds, r[n] == SEMICOLON);
      var o := StringAt(r[n + 1..], ds, r[n] == SEMICOLON);
      GoesOnShift(c, s, r, n + 1, o.next, ToList(o.title, c.hasTitle), t);
    } else {
      t := NumberEnd(c, a, r[n..], TitleOf(ds, []));
      var o := NumberEndAt(r[n..], TitleOf(ds, []));
      GoesOnShift(c, s, r, n, o.next, ToList(o.title, c.hasTitle), t);
    }
  }

  lemma {:induction false} NumberState(c: Config, s: State, ds: seq<u8>)
    requires c.osc && StateOk(c, s) && s.mode == Num && s.num == 0 && s.title == [] && !s.overflow
    requires forall i :: 0 <= i < |ds| ==> Decimal(ds[i])
    ensures s.dec.need == 0
    ensures var p := Process(c, s, ds);
            && p.out == [] && p.titles == [] && StateOk(c, p.s) && p.s == s.(num := p.s.num)
            && ((p.s.num == 0 || p.s.num == 2) <==> (Value(ds) == 0 || Value(ds) == 2))
            && OscEnd(c, p.s).titles == ToList(TitleOf(ds, []), c.hasTitle)
  {
    DigitsRun(c, s, ds);
    SaturateIsValue(ds);
  }

  lemma {:induction false} SeparatorState(c: Config, s: State, ds: seq<u8>, b: u8)
    requires c.osc && StateOk(c, s) && s.mode == Num && s.num == 0 && s.title == [] && !s.overflow
    requires (forall i :: 0 <= i < |ds| ==> Decimal(ds[i])) && !Decimal(b) && !Ends(b)
    ensures var p := Process(c, s, ds + [b]);
            && p.out == [] && p.titles == [] && StateOk(c, p.s) && p.s == s.(num := p.s.num, mode := Str)
            && ((p.s.num == 0 || p.s.num == 2) <==> b == SEMICOLON && (Value(ds) == 0 || Value(ds) == 2))
  {
    NumberState(c, s, ds);
    ProcessSnoc(c, s, ds, b);
  }

  /** An OSC that ends right after its number: BEL delivers nothing, ESC \ an empty title. */
  function NumberEndAt(r: seq<u8>, title: Option<seq<u8>>): (o: Osc)
    requires r != []
    ensures o.next <= |r|
  {
    if r[0] == ESC then AtEsc(r, 0, title) else Osc(1, None)
  }

  lemma {:induction false} NumberEnd(c: Config, s: State, r: seq<u8>, title: Option<seq<u8>>) returns (t: State)
    requires c.osc && StateOk(c, s) && s.mode == Num && r != [] && Ends(r[0])
    requires OscEnd(c, s).titles == ToList(title, c.hasTitle)
    ensures var o := NumberEndAt(r, title); GoesOn(c, s, r, o.next, ToList(o.title, c.hasTitle), t)
  {
    hide Process, GoesOn;
    if r[0] == ESC {
      t := EscInside(c, s, r, title);
    } else {
      t := EndInside(c, s, r);
    }
  }

  // ---------------------------------------------------------------- whole streams

  lemma RenderNone(c: Config, d: Dec)
    requires DecOk(d)
    ensures Render(c, d, []) == []
  {
  }

  lemma {:induction false} RenderFirst(c: Config, d: Dec, tok: Tok, rest: seq<Tok>)
    requires DecOk(d)
    ensures Render(c, d, [tok] + rest) ==
      match tok
      case Byte(b) => if !c.convert then [b] + Render(c, d, rest)
                      else DecByte(d, c.cs, b).1 + Render(c, DecByte(d, c.cs, b).0, rest)
      case Break => if !c.convert then Render(c, d, rest) else Flush(d).1 + Render(c, Flush(d).0, rest)
      case Escape => [ESC] + Render(c, d, rest)
  {
    assert ([tok] + rest)[1..] == rest;
  }

  /**
    Every stream, whatever it holds: the bytes written are the stream with each OSC removed,
    and the titles delivered are those of its well-formed OSC 0 and 2.
   */
  lemma {:induction false} ProcessIsScan(c: Config, s: State, input: seq<u8>)
    requires c.osc && StateOk(c, s) && s.mode == Text
    ensures var p, k := Process(c, s, input), Scan(input, c.hasTitle);
            p.out == Render(c, s.dec, k.toks) && p.titles == k.titles
    decreases |input|, 2
  {
    if input == [] {
    } else if input[0] != ESC {
      var k := Scan(input[1..], c.hasTitle);
      RenderFirst(c, s.dec, Byte(input[0]), k.toks);
      ProcessIsScan(c, Step(c, s, input[0]).s, input[1..]);
      assert [] + k.titles == k.titles;
    } else {
      AfterEsc(c, s, input);
    }
  }

  lemma From2(input: seq<u8>, n: nat)
    ensures |input| >= 2 + n ==> input[1..][1 + n..] == input[2 + n..]
  {
  }

  lemma {:induction false} AfterEsc(c: Config, s: State, input: seq<u8>)
    requires c.osc && StateOk(c, s) && s.mode == Text && input != [] && input[0] == ESC
    ensures var p, k := Process(c, s, input), Scan(input, c.hasTitle);
            p.out == Render(c, s.dec, k.toks) && p.titles == k.titles
    decreases |input|, 1
  {
    hide Process, Step, Render, Flush, OscAt, ScanEsc;
    FirstEsc(c, s, input);
    var k := ScanEsc(input, c.hasTitle);
    assert Scan(input, c.hasTitle) == Scanned([Break] + k.toks, k.titles);
    RenderFirst(c, s.dec, Break, k.toks);
    var d := if c.convert then Flush(s.dec).0 else s.dec;
    var e := s.(mode := Esc, dec := d);
    EscRest(c, e, input);
    assert [] + Process(c, e, input[1..]).out == Process(c, e, input[1..]).out;
  }

  /** What follows the ESC is written as the rest of the scan says. */
  lemma {:induction false} EscRest(c: Config, e: State, input: seq<u8>)
    requires c.osc && StateOk(c, e) && e.mode == Esc && input != [] && input[0] == ESC
    ensures var q, k := Process(c, e, input[1..]), ScanEsc(input, c.hasTitle);
            q.out == Render(c, e.dec, k.toks) && q.titles == k.titles
    decreases |input|, 0
  {
    hide Process, Render, OscAt, Scan, Bits;
    if |input| == 1 {
      assert input[1..] == [];
      ProcessNone(c, e);
      RenderNone(c, e.dec);
    } else if input[1] != RBRACKET {
      EscPasses(c, e, input[1..]);
    } else {
      OscRemoved(c, e, input[1..]);
      From2(input, 0);
      From2(input, OscAt(input[2..]).next);
    }
  }

  /** The ESC itself only flushes the decoder and is held back. */
  lemma {:induction false} FirstEsc(c: Config, s: State, input: seq<u8>)
    requires c.osc && StateOk(c, s) && s.mode == Text && input != [] && input[0] == ESC
    ensures var d := if c.convert then Flush(s.dec).0 else s.dec;
            var e := s.(mode := Esc, dec := d);
            StateOk(c, e) && (|input| == 1 ==> Process(c, e, input[1..]) == Done(e, [], []))
    ensures var d := if c.convert then Flush(s.dec).0 else s.dec;
            var q := Process(c, s.(mode := Esc, dec := d), input[1..]);
            Process(c, s, input) == Done(q.s, (if c.convert then Flush(s.dec).1 else []) + q.out, q.titles)
  {
    var a := Step(c, s, ESC);
    hide Step, Flush;
    var q := Process(c, a.s, input[1..]);
    assert [] + q.titles == q.titles;
  }

  /** A held ESC that does not open an OSC is written, and the stream goes on as text. */
  lemma {:induction false} EscPasses(c: Config, e: State, r: seq<u8>)
    requires c.osc && StateOk(c, e) && e.mode == Esc && r != [] && r[0] != RBRACKET
    ensures var q, k := Process(c, e, r), Scan(r, c.hasTitle);
            q.out == Render(c, e.dec, [Escape] + k.toks) && q.titles == k.titles
    decreases |r|, 3
  {
    hide DecByte, StepNum, StepStr, Scan, Render, Flush;
    var t := e.(mode := Text);
    ProcessIsScan(c, t, r);
    RenderFirst(c, e.dec, Escape, Scan(r, c.hasTitle).toks);
    EscThenText(c, e, r[0]);
    hide Step;
    var a, b := Step(c, e, r[0]), Step(c, t, r[0]);
    var q := Process(c, a.s, r[1..]);
    ProcessFirst(c, e, r);
    ProcessFirst(c, t, r);
    hide Process;
    Regroup([ESC], b.out, q.out);
  }

  lemma {:induction false} ProcessFirst(c: Config, s: State, r: seq<u8>)
    requires StateOk(c, s) && r != []
    ensures var a := Step(c, s, r[0]);
            var b := Process(c, a.s, r[1..]);
            Process(c, s, r) == Done(b.s, a.out + b.out, a.titles + b.titles)
  {
    hide Step;
  }

  lemma Regroup(a: seq<u8>, b: seq<u8>, d: seq<u8>)
    ensures (a + b) + d == a + (b + d)
  {
  }

  lemma EscThenText(c: Config, e: State, b: u8)
    requires c.osc && StateOk(c, e) && e.mode == Esc && b != RBRACKET
    ensures var x, y := Step(c, e, b), Step(c, e.(mode := Text), b);
            x.s == y.s && x.out == [ESC] + y.out && x.titles == y.titles
  {
  }

  /** ESC ] opens an OSC: nothing is written until the stream goes on. */
  lemma {:induction false} OscRemoved(c: Config, e: State, r: seq<u8>)
    requires c.osc && StateOk(c, e) && e.mode == Esc && r != [] && r[0] == RBRACKET
    ensures var o := OscAt(r[1..]);
            var q, k := Process(c, e, r), Scan(r[1 + o.next..], c.hasTitle);
            q.out == Render(c, e.dec, k.toks) && q.titles == ToList(o.title, c.hasTitle) + k.titles
    decreases |r|, 3
  {
    hide DecByte, Emit, Scan, Render, OscAt;
    StepFirst(c, e, r);
    var s := Step(c, e, r[0]).s;
    var t := OscRuns(c, s, r[1..]);
    var o := OscAt(r[1..]);
    ProcessIsScan(c, t, r[1..][o.next..]);
    assert r[1..][o.next..] == r[1 + o.next..];
    var q := Process(c, s, r[1..]);
    assert [] + q.titles == q.titles;
  }

  // ---------------------------------------------------------------- streams without an OSC

  ghost predicate HasOsc(input: seq<u8>) {
    exists i, j :: 0 <= i < |input| - 1 && j == i + 1 && input[i] == 0x1B && input[j] == 0x5D
  }

  /** The stream without a trailing ESC, which is held back. */
  function Held(input: seq<u8>): (r: seq<u8>) {
    if input != [] && input[|input| - 1] == 0x1B then input[..|input| - 1] else input
  }

  /** What is written for a stream, conversion off. */
  function Written(c: Config, input: seq<u8>): (out: seq<u8>)
    requires !c.convert
  {
    Render(c, FRESH.dec, Scan(input, c.hasTitle).toks)
  }

  /** Byte by byte, an OSC at a time. */
  lemma {:induction false} WrittenFirst(c: Config, input: seq<u8>)
    requires !c.convert && input != []
    ensures Written(c, []) == []
    ensures Written(c, input) ==
      if input[0] != ESC then [input[0]] + Written(c, input[1..])
      else if |input| == 1 then []
      else if input[1] != RBRACKET then [ESC] + Written(c, input[1..])
      else Written(c, input[2 + OscAt(input[2..]).next..])
  {
    var d, w := FRESH.dec, c.hasTitle;
    RenderNone(c, d);
    hide Render, DecByte, Flush, OscAt;
    if input[0] != ESC {
      RenderFirst(c, d, Byte(input[0]), Scan(input[1..], w).toks);
    } else if |input| == 1 {
      assert Scan(input, w).toks == [Break] + [];
      RenderFirst(c, d, Break, []);
    } else if input[1] != RBRACKET {
      var toks := Scan(input[1..], w).toks;
      assert Scan(input, w).toks == [Break] + ([Escape] + toks);
      RenderFirst(c, d, Break, [Escape] + toks);
      RenderFirst(c, d, Escape, toks);
    } else {
      var toks := Scan(input[2 + OscAt(input[2..]).next..], w).toks;
      assert Scan(input, w).toks == [Break] + toks;
      RenderFirst(c, d, Break, toks);
    }
  }

  lemma {:induction false} PlainWritten(c: Config, input: seq<u8>)
    requires !c.convert && !HasOsc(input)
    ensures Written(c, input) == Held(input)
    decreases |input|
  {
    hide Written, OscAt;
    if input == [] {
      WrittenFirst(c, [0]);
    } else {
      WrittenFirst(c, input);
      var rest := input[1..];
      if HasOsc(rest) { OscOfTail(input); }
      PlainWritten(c, rest);
      assert |input| > 1 ==> Held(input) == [input[0]] + Held(rest);
    }
  }

  lemma OscOfTail(input: seq<u8>)
    requires input != [] && HasOsc(input[1..])
    ensures HasOsc(input)
  {
    var i, j :| 0 <= i < |input[1..]| - 1 && j == i + 1 && input[1..][i] == ESC && input[1..][j] == RBRACKET;
    assert input[i + 1] == ESC && input[j + 1] == RBRACKET;
  }

  /** What is removed is at least the ESC and the ]. */
  lemma {:induction false} WrittenShrinks(c: Config, input: seq<u8>)
    requires !c.convert
    ensures |Written(c, input)| <= |input|
    ensures HasOsc(input) ==> |Written(c, input)| <= |input| - 2
    decreases |input|
  {
    hide Written, OscAt;
    if input == [] {
      WrittenFirst(c, [0]);
    } else {
      WrittenFirst(c, input);
      WrittenShrinks(c, input[1..]);
      if |input| > 1 && input[0] == ESC && input[1] == RBRACKET {
        WrittenShrinks(c, input[2 + OscAt(input[2..]).next..]);
      } else if HasOsc(input) {
        HasOscTail(input);
      }
    }
  }

  lemma HasOscTail(input: seq<u8>)
    requires HasOsc(input) && (input[0] != ESC || input[1] != RBRACKET)
    ensures HasOsc(input[1..])
  {
    var i, j :| 0 <= i < |input| - 1 && j == i + 1 && input[i] == ESC && input[j] == RBRACKET;
    assert input[1..][i - 1] == ESC && input[1..][j - 1] == RBRACKET;
  }

  /** With conversion off, a stream passes unchanged, up to a held ESC, exactly when it opens no OSC. */
  lemma PlainPassesIff(c: Config, input: seq<u8>)
    requires c.osc && !c.convert
    ensures Process(c, FRESH, input).out == Held(input) <==> !HasOsc(input)
  {
    ProcessIsScan(c, FRESH, input);
    if HasOsc(input) {
      WrittenShrinks(c, input);
    } else {
      PlainWritten(c, input);
    }
  }

  // ---------------------------------------------------------------- a stream that is not searched

  lemma UnsearchedByte(c: Config, s: State, b: u8)
    requires !c.osc && DecOk(s.dec)
    ensures var a := Step(c, s, b);
      && a.titles == [] && (!c.convert ==> a.s == s && a.out == [b])
      && (c.convert ==> a.s == s.(dec := DecByte(s.dec, c.cs, b).0) && a.out == DecByte(s.dec, c.cs, b).1)
  {
    hide DecByte;
  }

  /**
    With OSC sequences left in, as on the error stream: no title, and the output is the input
    decoded as one run of UTF-8, or the input itself.
   */
  lemma {:induction false} UnsearchedStream(c: Config, s: State, input: seq<u8>)
    requires !c.osc && DecOk(s.dec)
    ensures Process(c, s, input).titles == []
    ensures c.convert ==>
      var (d, out) := DecStream(s.dec, c.cs, input);
      Process(c, s, input).out == out && Process(c, s, input).s == s.(dec := d)
    ensures !c.convert ==> Process(c, s, input).out == input && Process(c, s, input).s == s
    decreases |input|
  {
    if input != [] {
      var b, rest := input[0], input[1..];
      var a := Step(c, s, b);
      UnsearchedByte(c, s, b);
      var p := Process(c, a.s, rest);
      assert Process(c, s, input) == Done(p.s, a.out + p.out, a.titles + p.titles);
      assert [b] + rest == input;
      hide Step, DecByte, Process, DecStream;
      UnsearchedStream(c, a.s, rest);
      DecStreamOne(s.dec, c.cs, b, rest);
    }
  }
}
