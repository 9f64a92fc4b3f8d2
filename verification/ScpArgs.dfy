/**
  Two programs and one line of text: scp quotes the arguments for the ssh it starts
  (clients/dropbear/amiga_scp.c), and ssh's start-up code takes the line apart again
  (clients/compat/amiga_argv.c).
 */
module ScpArgs {
  import opened Words

  const COMMAND_MAX: nat := 2048      // SCP_COMMAND_MAX
  const ARGV_MAX: nat := 256          // AMIGA_ARGV_MAX
  const ARGV_BUFSIZE: nat := 8192     // AMIGA_ARGV_BUFSIZE

  const SPACE: CByte := 0x20
  const QUOTE: CByte := 0x22
  const STAR: CByte := 0x2A
  const DOLLAR: CByte := 0x24
  const CR: CByte := 0x0D
  const LF: CByte := 0x0A
  const ESC: CByte := 0x1B

  // ---------------------------------------------------------------- quoting

  predicate NeedsStar(b: CByte) { b == STAR || b == QUOTE || b == DOLLAR }
  predicate Plain(arg: seq<CByte>) { CR !in arg && LF !in arg }

  /** Each special byte behind a star. */
  function Starred(arg: seq<CByte>): (s: seq<CByte>) {
    if arg == [] then []
    else (if NeedsStar(arg[0]) then [STAR, arg[0]] else [arg[0]]) + Starred(arg[1..])
  }

  function Quoted(arg: seq<CByte>): (s: seq<CByte>) { [QUOTE] + Starred(arg) + [QUOTE] }

  /** What one more argument adds to a line already `used` long. */
  function Piece(used: nat, arg: seq<CByte>): (s: seq<CByte>) {
    (if used == 0 then [] else [SPACE]) + Quoted(arg)
  }

  lemma {:induction false} StarredSnoc(arg: seq<CByte>, b: CByte)
    ensures Starred(arg + [b]) == Starred(arg) + (if NeedsStar(b) then [STAR, b] else [b])
    decreases |arg|
  {
    if arg == [] {
      assert [b][1..] == [];
    } else {
      assert (arg + [b])[1..] == arg[1..] + [b];
      StarredSnoc(arg[1..], b);
    }
  }

  lemma {:induction false} StarredGrows(arg: seq<CByte>, i: nat)
    requires i <= |arg|
    ensures |Starred(arg[..i])| + (|arg| - i) <= |Starred(arg)|
    decreases |arg| - i
  {
    if i < |arg| {
      StarredGrows(arg, i + 1);
      assert arg[..i + 1] == arg[..i] + [arg[i]];
      StarredSnoc(arg[..i], arg[i]);
    } else {
      assert arg[..i] == arg;
    }
  }

  /** The C string a buffer holds: its first `used` bytes, ended by a NUL. */
  ghost predicate Holds(line: seq<int>, s: seq<CByte>) {
    |s| < |line| && line[..|s|] == s && line[|s|] == 0
  }

  /** line[(*used)++] = b */
  method Store(line: array<int>, used: nat, b: int)
    requires used < line.Length
    modifies line
    ensures line[..used + 1] == old(line[..used]) + [b]
  {
    line[used] := b;
  }

  /** One argument byte, behind a star when it needs one; refused when the buffer is full. */
  method StoreStarred(line: array<int>, used0: nat, b: CByte) returns (ok: bool, used: nat)
    requires used0 < line.Length
    modifies line
    ensures var s := if NeedsStar(b) then [STAR, b] else [b];
            && (ok <==> used0 + |s| < line.Length)
            && (ok ==> used == used0 + |s| && line[..used] == old(line[..used0]) + s)
    ensures line[..used0] == old(line[..used0])
  {
    used := used0;
    if NeedsStar(b) {
      if used + 1 >= line.Length {
        return false, used;
      }
      Store(line, used, STAR);
      used := used + 1;
    }
    if used + 1 >= line.Length {
      return false, used;
    }
    Store(line, used, b);
    used := used + 1;
    ok := true;
    assert line[..used][..used0] == line[..used0];
  }

  /**
    append_shell_arg.  It succeeds exactly when the argument has no line break and the quoted
    form and its NUL fit; then the line is the old one with the piece appended.  Nothing
    before `used` is touched either way.
   */
  method AppendShellArg(line: array<int>, used0: nat, arg: seq<CByte>) returns (ok: bool, used: nat)
    requires used0 <= line.Length
    modifies line
    ensures line[..used0] == old(line[..used0])
    ensures ok <==> Plain(arg) && used0 + |Piece(used0, arg)| < line.Length
    ensures ok ==>
      used == used0 + |Piece(used0, arg)| && line[..used] == old(line[..used0]) + Piece(used0, arg) && line[used] == 0
  {
    used := used0;
    StarredGrows(arg, 0);
    if used + 2 >= line.Length {
      return false, used;
    }
    used := OpenQuote(line, used0);
    ghost var was := old(line[..used0]);
    ghost var open := (if used0 == 0 then [] else [SPACE]) + [QUOTE];
    var filled;
    filled, used := StoreBody(line, used, arg);
    assert was + open + Starred(arg) == was + (open + Starred(arg));
    PieceShape(used0, arg);
    assert line[..used0] == was by { assert (was + open)[..used0] == was; }
    if !filled || used + 1 >= line.Length {
      return false, used;
    }
    Store(line, used, QUOTE);
    used := used + 1;
    assert line[..used] == was + Piece(used0, arg);
    line[used] := 0;
    assert line[..used][..used0] == line[..used0];
    ok := true;
  }

  method OpenQuote(line: array<int>, used0: nat) returns (used: nat)
    requires used0 + 2 < line.Length
    modifies line
    ensures used == used0 + (if used0 == 0 then 1 else 2)
    ensures line[..used] == old(line[..used0]) + ((if used0 == 0 then [] else [SPACE]) + [QUOTE])
  {
    used := used0;
    if used != 0 {
      Store(line, used, SPACE);
      used := used + 1;
    }
    Store(line, used, QUOTE);
    used := used + 1;
  }

  lemma PieceShape(used0: nat, arg: seq<CByte>)
    ensures Piece(used0, arg) == (if used0 == 0 then [] else [SPACE]) + [QUOTE] + Starred(arg) + [QUOTE]
  {
  }

  /** The bytes between the quotes. */
  method StoreBody(line: array<int>, used0: nat, arg: seq<CByte>) returns (ok: bool, used: nat)
    requires used0 < line.Length
    modifies line
    ensures line[..used0] == old(line[..used0]) && used0 <= used <= line.Length
    ensures ok <==> Plain(arg) && used0 + |Starred(arg)| < line.Length
    ensures ok ==> used == used0 + |Starred(arg)| && line[..used] == old(line[..used0]) + Starred(arg)
  {
    used := used0;
    var i := 0;
    assert arg[..0] == [];
    while i < |arg|
      invariant i <= |arg| && used < line.Length
      invariant used == used0 + |Starred(arg[..i])|
      invariant line[..used] == old(line[..used0]) + Starred(arg[..i])
      invariant Plain(arg[..i])
    {
      assert arg[..i + 1] == arg[..i] + [arg[i]];
      StarredSnoc(arg[..i], arg[i]);
      StarredGrows(arg, i + 1);
      assert line[..used][..used0] == line[..used0];
      if arg[i] == CR || arg[i] == LF {
        return false, used;
      }
      var stored, next := StoreStarred(line, used, arg[i]);
      assert line[..used][..used0] == line[..used0];
      if !stored {
        return false, used;
      }
      used := next;
      i := i + 1;
    }
    assert arg[..i] == arg;
    assert line[..used][..used0] == line[..used0];
    ok := true;
  }

  // ---------------------------------------------------------------- the whole line

  function Tail(list: seq<seq<CByte>>): (s: seq<CByte>) {
    if list == [] then [] else [SPACE] + Quoted(list[0]) + Tail(list[1..])
  }

  /** The arguments quoted, with single spaces between them. */
  function LineOf(list: seq<seq<CByte>>): (s: seq<CByte>) {
    if list == [] then [] else Quoted(list[0]) + Tail(list[1..])
  }

  lemma {:induction false} TailSnoc(list: seq<seq<CByte>>, a: seq<CByte>)
    ensures Tail(list + [a]) == Tail(list) + ([SPACE] + Quoted(a))
    decreases |list|
  {
    if list == [] {
      assert [a][1..] == [];
    } else {
      assert (list + [a])[1..] == list[1..] + [a];
      TailSnoc(list[1..], a);
    }
  }

  lemma {:induction false} LineOfSnoc(list: seq<seq<CByte>>, a: seq<CByte>)
    ensures LineOf(list + [a]) == LineOf(list) + Piece(|LineOf(list)|, a)
  {
    if list == [] {
      assert [a][1..] == [];
    } else {
      assert (list + [a])[1..] == list[1..] + [a];
      TailSnoc(list[1..], a);
    }
  }

  lemma {:induction false} LineOfGrows(list: seq<seq<CByte>>, i: nat)
    requires i <= |list|
    ensures |LineOf(list[..i])| <= |LineOf(list)|
    ensures i < |list| ==> |LineOf(list[..i])| + |Piece(|LineOf(list[..i])|, list[i])| <= |LineOf(list)|
    decreases |list| - i
  {
    hide LineOf, Piece;
    if i < |list| {
      LineOfGrows(list, i + 1);
      assert list[..i + 1] == list[..i] + [list[i]];
      LineOfSnoc(list[..i], list[i]);
    } else {
      assert list[..i] == list;
    }
  }

  predicate AllPlain(list: seq<seq<CByte>>) { forall i :: 0 <= i < |list| ==> Plain(list[i]) }

  /**
    The argument line do_cmd builds: every argument appended, then a newline.  It is built
    exactly when no argument has a line break and line, newline and NUL fit the buffer.
   */
  method BuildLine(line: array<int>, list: seq<seq<CByte>>) returns (ok: bool, used: nat)
    requires line.Length == COMMAND_MAX
    modifies line
    ensures ok <==> AllPlain(list) && |LineOf(list)| + 2 <= COMMAND_MAX
    ensures ok ==> used == |LineOf(list)| + 1 && Holds(line[..], LineOf(list) + [LF])
  {
    used := 0;
    var i := 0;
    assert LineOf(list[..0]) == [];
    hide LineOf, Piece, Plain;
    while i < |list|
      invariant 0 <= i <= |list| && used < line.Length
      invariant used == |LineOf(list[..i])| && line[..used] == LineOf(list[..i])
      invariant AllPlain(list[..i])
    {
      assert list[..i + 1] == list[..i] + [list[i]];
      LineOfSnoc(list[..i], list[i]);
      LineOfGrows(list, i);
      ok, used := AppendShellArg(line, used, list[i]);
      if !ok {
        return;
      }
      i := i + 1;
    }
    assert list[..i] == list;
    if used + 2 > line.Length {
      return false, used;
    }
    Store(line, used, LF);
    used := used + 1;
    line[used] := 0;
    assert line[..used] == LineOf(list) + [LF];
    ok := true;
  }

  // ---------------------------------------------------------------- taking the line apart

  predicate IsSpace(b: CByte) { b == SPACE || b == 0x09 || b == LF || b == CR || b == 0x0C }

  function SkipSpaces(s: seq<CByte>): (r: seq<CByte>)
    ensures |r| <= |s| && (r != [] ==> !IsSpace(r[0]))
  {
    if s != [] && IsSpace(s[0]) then SkipSpaces(s[1..]) else s
  }

  /** *n is a line feed, *e an escape, any other starred byte itself. */
  function Unstar(b: CByte): (r: CByte) {
    if b == 0x6E || b == 0x4E then LF else if b == 0x65 || b == 0x45 then ESC else b
  }

  /** The inside of a quoted word, at most `room` bytes of it, and what is left of the line. */
  function QuotedWord(s: seq<CByte>, room: nat): (r: (seq<CByte>, seq<CByte>))
    ensures |r.0| <= room && |r.1| <= |s|
    decreases |s|
  {
    if s == [] || s[0] == QUOTE || room == 0 then ([], s)
    else
      var (c, n) := QuotedByte(s);
      var (w, rest) := QuotedWord(s[n..], room - 1);
      ([c] + w, rest)
  }

  /** The byte at the front of the inside of a quoted word, and how much of the line it takes. */
  function QuotedByte(s: seq<CByte>): (r: (CByte, nat))
    requires s != []
    ensures 0 < r.1 <= |s|
  {
    if s[0] == STAR && |s| > 1 then (Unstar(s[1]), 2) else (s[0], 1)
  }

  function BareWord(s: seq<CByte>, room: nat): (r: (seq<CByte>, seq<CByte>))
    ensures |r.0| <= room && |r.1| <= |s|
    ensures s != [] && !IsSpace(s[0]) && room > 0 ==> |r.1| < |s|
    decreases |s|
  {
    if s == [] || IsSpace(s[0]) || room == 0 then ([], s)
    else var (w, rest) := BareWord(s[1..], room - 1); ([s[0]] + w, rest)
  }

  /** One word at the front of `s`, and the line after it. */
  function Word(s: seq<CByte>, room: nat): (r: (seq<CByte>, seq<CByte>))
    requires s != [] && !IsSpace(s[0]) && room > 0
    ensures |r.0| <= room && |r.1| < |s|
  {
    if s[0] == QUOTE then
      var (w, rest) := QuotedWord(s[1..], room);
      (w, if rest != [] then (if rest[0] == QUOTE then rest[1..] else rest) else rest)
    else BareWord(s, room)
  }

  /** The words of a line, with `w` bytes of the buffer and `argc` places of the vector taken. */
  function WordsOf(s: seq<CByte>, w: nat, argc: nat): (ws: seq<seq<CByte>>)
    decreases |s|
  {
    if argc >= ARGV_MAX || w >= ARGV_BUFSIZE - 1 then []
    else
      var t := SkipSpaces(s);
      if t == [] then []
      else
        var (word, rest) := Word(t, ARGV_BUFSIZE - 1 - w);
        [word] + WordsOf(rest, w + |word| + 1, argc + 1)
  }

  /** The words are laid out in the buffer one after another, each ended by a NUL. */
  ghost predicate Laid(buf: seq<int>, starts: seq<nat>, ws: seq<seq<CByte>>, w: nat) {
    && |starts| == |ws| && w <= |buf|
    && forall i :: 0 <= i < |ws| ==>
         starts[i] + |ws[i]| < w && buf[starts[i]..starts[i] + |ws[i]|] == ws[i] && buf[starts[i] + |ws[i]|] == 0
  }

  /** So far `done` is in the buffer behind `was`, and with what is still to read it makes up the word. */
  ghost predicate Reading(b: seq<int>, was: seq<int>, w: nat, done: seq<CByte>, line: seq<CByte>, r: nat,
                          all: (seq<CByte>, seq<CByte>)) {
    && r <= |line| && w == |was| + |done| <= ARGV_BUFSIZE - 1 && w <= |b| && b[..w] == was + done
    && var rest := QuotedWord(line[r..], ARGV_BUFSIZE - 1 - w); all.0 == done + rest.0 && all.1 == rest.1
  }

  lemma {:induction false} QuotedTurn(line: seq<CByte>, r: nat, room: nat, done: seq<CByte>)
    requires r < |line| && line[r] != QUOTE && room > 0
    ensures var (c, n) := QuotedByte(line[r..]);
            var a, b := QuotedWord(line[r..], room), QuotedWord(line[r + n..], room - 1);
            done + a.0 == done + [c] + b.0 && a.1 == b.1
  {
    var (c, n) := QuotedByte(line[r..]);
    assert line[r..][n..] == line[r + n..];
    var b := QuotedWord(line[r + n..], room - 1);
    assert done + ([c] + b.0) == done + [c] + b.0;
  }

  lemma {:induction false} QuotedEnds(line: seq<CByte>, r: nat, room: nat)
    requires r == |line| || (r < |line| && line[r] == QUOTE) || (r <= |line| && room == 0)
    ensures QuotedWord(line[r..], room) == ([], line[r..])
  {
  }

  class ArgvShim {
    const buf: array<int>          // argv_buf
    var vec: seq<nat>              // argv_vec[1..]: where each word starts

    constructor ()
      ensures buf.Length == ARGV_BUFSIZE && fresh(buf) && vec == []
    {
      buf := new int[ARGV_BUFSIZE];
      vec := [];
    }

    /** One byte into the buffer at the write cursor. */
    method Keep(w: nat, b: int)
      requires w < buf.Length
      modifies buf
      ensures buf[..w + 1] == old(buf[..w]) + [b]
    {
      buf[w] := b;
    }

    static method ReadByte(line: seq<CByte>, r0: nat) returns (c: CByte, r: nat)
      requires r0 < |line|
      ensures r0 < r <= |line| && QuotedByte(line[r0..]) == (c, r - r0)
    {
      r := r0;
      c := line[r];
      r := r + 1;
      if c == STAR && At(line, r) != 0 {
        c := Unstar(line[r]);
        r := r + 1;
      }
    }

    /** A quoted word: spaces are literal, '*' is the escape. */
    method ReadQuoted(line: seq<CByte>, r0: nat, w0: nat) returns (r: nat, w: nat)
      requires r0 <= |line| && w0 <= ARGV_BUFSIZE - 1 && buf.Length == ARGV_BUFSIZE
      modifies buf
      ensures var (word, rest) := QuotedWord(line[r0..], ARGV_BUFSIZE - 1 - w0);
              && r <= |line| && line[r..] == rest && w == w0 + |word| && w <= ARGV_BUFSIZE - 1
              && buf[..w] == old(buf[..w0]) + word
    {
      ghost var all := QuotedWord(line[r0..], ARGV_BUFSIZE - 1 - w0);
      ghost var was := buf[..w0];
      r, w := r0, w0;
      ghost var done: seq<CByte> := [];
      assert Reading(buf[..], was, w, done, line, r, all);
      hide QuotedWord;
      while At(line, r) != 0 && line[r] != QUOTE && w < ARGV_BUFSIZE - 1
        invariant 0 <= r <= |line| && w <= ARGV_BUFSIZE - 1
        invariant Reading(buf[..], was, w, done, line, r, all)
        decreases |line| - r
      {
        hide Reading;
        r, done := ReadOne(line, r, w, was, done, all);
        w := w + 1;
      }
      QuotedEnds(line, r, ARGV_BUFSIZE - 1 - w);
      assert done + [] == done;
    }

    /** One byte of a quoted word into the buffer. */
    method ReadOne(line: seq<CByte>, r0: nat, w: nat, ghost was: seq<int>, ghost done0: seq<CByte>,
                   ghost all: (seq<CByte>, seq<CByte>))
      returns (r: nat, ghost done: seq<CByte>)
      requires r0 < |line| && line[r0] != QUOTE && w < ARGV_BUFSIZE - 1 && buf.Length == ARGV_BUFSIZE
      requires Reading(buf[..], was, w, done0, line, r0, all)
      modifies buf
      ensures r0 < r <= |line| && Reading(buf[..], was, w + 1, done, line, r, all)
    {
      QuotedTurn(line, r0, ARGV_BUFSIZE - 1 - w, done0);
      var c;
      c, r := ReadByte(line, r0);
      Keep(w, c);
      done := done0 + [c];
      hide QuotedWord;
      assert buf[..][..w] == buf[..w] && buf[..][..w + 1] == buf[..w + 1];
      assert was + done0 + [c] == was + done;
    }

    method ReadBare(line: seq<CByte>, r0: nat, w0: nat) returns (r: nat, w: nat)
      requires r0 <= |line| && w0 <= ARGV_BUFSIZE - 1 && buf.Length == ARGV_BUFSIZE
      modifies buf
      ensures var (word, rest) := BareWord(line[r0..], ARGV_BUFSIZE - 1 - w0);
              && r <= |line| && line[r..] == rest && w == w0 + |word| && w <= ARGV_BUFSIZE - 1
              && buf[..w] == old(buf[..w0]) + word
    {
      r, w := r0, w0;
      ghost var done: seq<CByte> := [];
      while At(line, r) != 0 && !IsSpace(line[r]) && w < ARGV_BUFSIZE - 1
        invariant r <= |line| && w == w0 + |done| && w <= ARGV_BUFSIZE - 1
        invariant buf[..w] == old(buf[..w0]) + done
        invariant var a := BareWord(line[r0..], ARGV_BUFSIZE - 1 - w0);
                  var b := BareWord(line[r..], ARGV_BUFSIZE - 1 - w);
                  a.0 == done + b.0 && a.1 == b.1
        decreases |line| - r
      {
        ghost var s := line[r..];
        assert s[1..] == line[r + 1..];
        ghost var more := BareWord(line[r + 1..], ARGV_BUFSIZE - 1 - (w + 1)).0;
        assert done + ([line[r]] + more) == (done + [line[r]]) + more;
        Keep(w, line[r]);
        done := done + [line[r]];
        r, w := r + 1, w + 1;
      }
      assert done + [] == done;
    }

    /** One word and its NUL. */
    method ReadWord(line: seq<CByte>, r0: nat, w0: nat) returns (r: nat, w: nat)
      requires r0 < |line| && !IsSpace(line[r0]) && w0 < ARGV_BUFSIZE - 1 && buf.Length == ARGV_BUFSIZE
      modifies buf
      ensures var (word, rest) := Word(line[r0..], ARGV_BUFSIZE - 1 - w0);
              && r0 < r <= |line| && line[r..] == rest && w == w0 + |word| + 1 && w <= ARGV_BUFSIZE
              && buf[..w] == old(buf[..w0]) + word + [0]
    {
      if line[r0] == QUOTE {
        assert line[r0..][1..] == line[r0 + 1..];
        r, w := ReadQuoted(line, r0 + 1, w0);
        if At(line, r) == QUOTE {
          assert line[r..][1..] == line[r + 1..];
          r := r + 1;
        }
      } else {
        r, w := ReadBare(line, r0, w0);
      }
      Keep(w, 0);
      w := w + 1;
    }

    /** The tokeniser loop: the words of the line, cut off at 255 words or a full buffer, never past it. */
    method Tokenise(line: seq<CByte>) returns (w: nat)
      requires buf.Length == ARGV_BUFSIZE
      modifies this, buf
      ensures Laid(buf[..], vec, WordsOf(line, 0, 1), w)
      ensures |vec| < ARGV_MAX
    {
      hide WordsOf, Word, SkipSpaces, Laid;
      vec := [];
      w := 0;
      var r, argc := 0, 1;
      NoneLaid(buf[..]);
      ghost var done: seq<seq<CByte>> := [];
      assert line[0..] == line;
      while argc < ARGV_MAX && w < ARGV_BUFSIZE - 1
        invariant 0 <= r <= |line| && 0 <= w <= ARGV_BUFSIZE && argc == 1 + |vec| <= ARGV_MAX
        invariant Laid(buf[..], vec, done, w)
        invariant WordsOf(line, 0, 1) == done + WordsOf(line[r..], w, argc)
        decreases |line| - r
      {
        ghost var s := line[r..];
        r := Skip(line, r);
        if At(line, r) == 0 {
          assert line[r..] == [];
          NoMoreWords(s, w, argc);
          assert done + [] == done;
          assert WordsOf(line, 0, 1) == done;
          return;
        }
        WordsOfFirst(s, w, argc);
        ghost var was, w0 := buf[..], w;
        ghost var word := Word(line[r..], ARGV_BUFSIZE - 1 - w).0;
        vec := vec + [w];
        argc := argc + 1;
        r, w := ReadWord(line, r, w);
        LaidSnoc(was, buf[..], vec[..|vec| - 1], done, w0, word);
        assert done + ([word] + WordsOf(line[r..], w, argc)) == (done + [word]) + WordsOf(line[r..], w, argc);
        done := done + [word];
      }
      FullWords(line[r..], w, argc);
      assert done + [] == done;
    }

    method Skip(line: seq<CByte>, r0: nat) returns (r: nat)
      requires r0 <= |line|
      ensures r0 <= r <= |line| && line[r..] == SkipSpaces(line[r0..])
    {
      r := r0;
      while At(line, r) != 0 && IsSpace(line[r])
        invariant r0 <= r <= |line| && SkipSpaces(line[r..]) == SkipSpaces(line[r0..])
        decreases |line| - r
      {
        assert line[r..][1..] == line[r + 1..];
        r := r + 1;
      }
    }
  }

  lemma NoneLaid(buf: seq<int>)
    ensures Laid(buf, [], [], 0)
  {
  }

  lemma {:induction false} NoMoreWords(s: seq<CByte>, w: nat, argc: nat)
    requires SkipSpaces(s) == []
    ensures WordsOf(s, w, argc) == []
  {
  }

  lemma {:induction false} FullWords(s: seq<CByte>, w: nat, argc: nat)
    requires argc >= ARGV_MAX || w >= ARGV_BUFSIZE - 1
    ensures WordsOf(s, w, argc) == []
  {
  }

  lemma LaidSnoc(was: seq<int>, now: seq<int>, starts: seq<nat>, ws: seq<seq<CByte>>, w: nat, word: seq<CByte>)
    requires Laid(was, starts, ws, w) && |now| == |was| && w + |word| + 1 <= |now|
    requires now[..w + |word| + 1] == was[..w] + word + [0]
    ensures Laid(now, starts + [w], ws + [word], w + |word| + 1)
  {
    var all := was[..w] + word + [0];
    assert all[w..w + |word|] == word && all[w + |word|] == 0 && all[..w] == was[..w];
    assert now[w..w + |word|] == all[w..w + |word|] && now[..w] == was[..w];
    forall i | 0 <= i < |ws|
      ensures now[starts[i]..starts[i] + |ws[i]|] == ws[i] && now[starts[i] + |ws[i]|] == 0
    {
      SameBelow(was, now, w, starts[i], starts[i] + |ws[i]|);
    }
  }

  lemma SameBelow(was: seq<int>, now: seq<int>, w: nat, i: nat, j: nat)
    requires i <= j < w <= |was| && w <= |now| && now[..w] == was[..w]
    ensures now[i..j] == was[i..j] && now[j] == was[j]
  {
    forall k | i <= k <= j ensures now[k] == was[k] {
      assert now[..w][k] == was[..w][k];
    }
  }

  // ---------------------------------------------------------------- the round trip

  /** Bytes of the buffer a list of words takes. */
  function Need(list: seq<seq<CByte>>): (n: nat) {
    if list == [] then 0 else |list[0]| + 1 + Need(list[1..])
  }

  lemma {:induction false} UnquoteQuoted(arg: seq<CByte>, rest: seq<CByte>, room: nat)
    requires room >= |arg|
    ensures QuotedWord(Starred(arg) + [QUOTE] + rest, room) == (arg, [QUOTE] + rest)
    decreases |arg|
  {
    var s := Starred(arg) + [QUOTE] + rest;
    if arg == [] {
      assert s == [QUOTE] + rest;
    } else {
      var t := Starred(arg[1..]) + [QUOTE] + rest;
      assert s == (if NeedsStar(arg[0]) then [STAR, arg[0]] else [arg[0]]) + t;
      UnquoteQuoted(arg[1..], rest, room - 1);
      QuotedFirst(arg[0], t, room);
      assert arg == [arg[0]] + arg[1..];
    }
  }

  lemma {:induction false} QuotedFirst(b: CByte, t: seq<CByte>, room: nat)
    requires room > 0
    ensures var s := (if NeedsStar(b) then [STAR, b] else [b]) + t;
            QuotedWord(s, room) == ([b] + QuotedWord(t, room - 1).0, QuotedWord(t, room - 1).1)
  {
    var s := (if NeedsStar(b) then [STAR, b] else [b]) + t;
    if NeedsStar(b) {
      assert s[2..] == t && s[1] == b && QuotedByte(s) == (b, 2);
    } else {
      assert s[1..] == t;
    }
  }

  lemma {:induction false} WordOfQuoted(arg: seq<CByte>, rest: seq<CByte>, room: nat)
    requires room > 0 && room >= |arg|
    ensures Word(Quoted(arg) + rest, room) == (arg, rest)
  {
    var s := Quoted(arg) + rest;
    assert s[1..] == Starred(arg) + [QUOTE] + rest;
    UnquoteQuoted(arg, rest, room);
    assert ([QUOTE] + rest)[1..] == rest;
  }

  function First(list: seq<seq<CByte>>, n: nat): (r: seq<seq<CByte>>) {
    if |list| <= n then list else list[..n]
  }

  /** A line that starts with a quoted argument gives that argument first. */
  lemma {:induction false} FirstWord(arg: seq<CByte>, rest: seq<CByte>, gap: seq<CByte>, w: nat, argc: nat)
    requires argc < ARGV_MAX && w + |arg| + 1 <= ARGV_BUFSIZE - 1 && (gap == [] || gap == [SPACE])
    ensures WordsOf(gap + Quoted(arg) + rest, w, argc) == [arg] + WordsOf(rest, w + |arg| + 1, argc + 1)
  {
    var s, t := gap + Quoted(arg) + rest, Quoted(arg) + rest;
    assert s == gap + t;
    SkipGap(gap, t);
    WordOfQuoted(arg, rest, ARGV_BUFSIZE - 1 - w);
    hide Word, SkipSpaces;
    WordsOfFirst(s, w, argc);
  }

  lemma {:induction false} SkipGap(gap: seq<CByte>, t: seq<CByte>)
    requires (gap == [] || gap == [SPACE]) && t != [] && t[0] == QUOTE
    ensures SkipSpaces(gap + t) == t
  {
    if gap == [] {
      assert gap + t == t;
    } else {
      assert (gap + t)[1..] == t;
    }
  }

  lemma {:induction false} WordsOfFirst(s: seq<CByte>, w: nat, argc: nat)
    requires argc < ARGV_MAX && w < ARGV_BUFSIZE - 1 && SkipSpaces(s) != []
    ensures var (word, rest) := Word(SkipSpaces(s), ARGV_BUFSIZE - 1 - w);
            WordsOf(s, w, argc) == [word] + WordsOf(rest, w + |word| + 1, argc + 1)
  {
    hide Word, SkipSpaces;
  }

  lemma {:induction false} NoWords(w: nat, argc: nat)
    ensures WordsOf([LF], w, argc) == []
  {
    assert [LF][1..] == [];
    assert SkipSpaces([LF]) == SkipSpaces([]) == [];
  }

  lemma {:induction false} TailRoundTrip(list: seq<seq<CByte>>, w: nat, argc: nat)
    requires argc <= ARGV_MAX && w + Need(list) <= ARGV_BUFSIZE - 1
    ensures WordsOf(Tail(list) + [LF], w, argc) == First(list, ARGV_MAX - argc)
    decreases |list|
  {
    hide *;
    if argc == ARGV_MAX {
      FullWords(Tail(list) + [LF], w, argc);
      FirstNone(list, 0);
    } else if list == [] {
      TailNone();
      NoWords(w, argc);
      FirstNone(list, ARGV_MAX - argc);
    } else {
      NeedCons(list);
      TailCons(list);
      FirstCons(list, ARGV_MAX - argc);
      FirstWord(list[0], Tail(list[1..]) + [LF], [SPACE], w, argc);
      TailRoundTrip(list[1..], w + |list[0]| + 1, argc + 1);
    }
  }

  lemma FirstNone(list: seq<seq<CByte>>, n: nat)
    requires list == [] || n == 0
    ensures First(list, n) == []
  {
  }

  lemma TailNone()
    ensures Tail([]) + [LF] == [LF]
  {
  }

  lemma LineNone()
    ensures LineOf([]) + [LF] == Tail([]) + [LF]
  {
  }

  lemma NeedNone()
    ensures Need([]) == 0
  {
  }

  lemma NeedCons(list: seq<seq<CByte>>)
    requires list != []
    ensures Need(list) == |list[0]| + 1 + Need(list[1..])
  {
  }

  lemma {:induction false} TailCons(list: seq<seq<CByte>>)
    requires list != []
    ensures Tail(list) + [LF] == [SPACE] + Quoted(list[0]) + (Tail(list[1..]) + [LF])
  {
  }

  lemma {:induction false} LineCons(list: seq<seq<CByte>>)
    requires list != []
    ensures LineOf(list) + [LF] == [] + Quoted(list[0]) + (Tail(list[1..]) + [LF])
  {
  }

  lemma FirstCons(list: seq<seq<CByte>>, n: nat)
    requires list != [] && n > 0
    ensures First(list, n) == [list[0]] + First(list[1..], n - 1)
  {
  }

  lemma {:induction false} LineFits(list: seq<seq<CByte>>)
    requires list != []
    ensures |list[0]| + 1 + Need(list[1..]) <= |LineOf(list)|
  {
    TailFits(list[1..]);
    StarredGrows(list[0], 0);
    assert list[0][..0] == [];
  }

  lemma {:induction false} TailFits(list: seq<seq<CByte>>)
    ensures Need(list) <= |Tail(list)|
    decreases |list|
  {
    if list != [] {
      TailFits(list[1..]);
      StarredGrows(list[0], 0);
      assert list[0][..0] == [];
    }
  }

  /**
    The round trip between the two programs: whatever arguments scp could put on its line, ssh
    gets back exactly, empty ones and stars, quotes and dollars included; past the 255th the
    vector is full.
   */
  lemma {:induction false} RoundTrip(list: seq<seq<CByte>>)
    requires |LineOf(list)| + 2 <= COMMAND_MAX
    ensures WordsOf(LineOf(list) + [LF], 0, 1) == First(list, ARGV_MAX - 1)
  {
    hide WordsOf, Quoted, LineOf, Tail, Need, First;
    if list == [] {
      LineNone();
      NeedNone();
      TailRoundTrip(list, 0, 1);
    } else {
      LineCons(list);
      FirstCons(list, ARGV_MAX - 1);
      LineFits(list);
      FirstWord(list[0], Tail(list[1..]) + [LF], [], 0, 1);
      TailRoundTrip(list[1..], |list[0]| + 1, 2);
    }
  }

  // ---------------------------------------------------------------- the two notations, from the text

  /** The text spells the argument: a star, a quote or a dollar stands behind a star, and nothing else does. */
  predicate Spells(t: seq<CByte>, arg: seq<CByte>)
    decreases |t|
  {
    if t == [] then arg == []
    else if t[0] == 0x2A then
      |t| >= 2 && t[1] in {0x2A, 0x22, 0x24} && arg != [] && arg[0] == t[1] && Spells(t[2..], arg[1..])
    else t[0] !in {0x22, 0x24} && arg != [] && arg[0] == t[0] && Spells(t[1..], arg[1..])
  }

  /** scp writes the one text that spells the argument, between quotes. */
  lemma {:induction false} QuotedSpells(t: seq<CByte>, arg: seq<CByte>)
    ensures Spells(t, arg) <==> Quoted(arg) == [0x22] + t + [0x22]
  {
    hide Starred;
    SpellsStarred(t, arg);
    var x, y := Quoted(arg), [0x22] + t + [0x22];
    assert x[1..|x| - 1] == Starred(arg) && y[1..|y| - 1] == t;
  }

  lemma {:induction false} SpellsStarred(t: seq<CByte>, arg: seq<CByte>)
    ensures Spells(t, arg) <==> t == Starred(arg)
    decreases |t|
  {
    if arg != [] {
      var head, rest := Starring(arg[0]), Starred(arg[1..]);
      assert Starred(arg) == head + rest;
      if t != [] && (t[0] != 0x2A || |t| >= 2) {
        var n := if t[0] == 0x2A then 2 else 1;
        SpellsStarred(t[n..], arg[1..]);
        assert t == t[..n] + t[n..];
        assert t == head + rest ==> |head| == n && t[..n] == head && t[n..] == rest;
      }
    }
  }

  /** In a quoted word: a byte, or a byte behind a star. */
  datatype Mark = Bare(b: CByte) | Behind(b: CByte)

  datatype Token = Loose(bytes: seq<CByte>) | InQuotes(marks: seq<Mark>)

  /** Behind a star n is a line feed and e an escape, in either case; any other byte is itself. */
  function MarkByte(m: Mark): (b: CByte) {
    if m.Bare? then m.b else if m.b in {0x6E, 0x4E} then 0x0A else if m.b in {0x65, 0x45} then 0x1B else m.b
  }

  function MarkText(m: Mark): (t: seq<CByte>) { if m.Bare? then [m.b] else [0x2A, m.b] }

  function MarksText(ms: seq<Mark>): (t: seq<CByte>) { if ms == [] then [] else MarkText(ms[0]) + MarksText(ms[1..]) }

  function MarksWord(ms: seq<Mark>): (w: seq<CByte>)
    ensures |w| == |ms|
  {
    if ms == [] then [] else [MarkByte(ms[0])] + MarksWord(ms[1..])
  }

  predicate MarksOk(ms: seq<Mark>) { forall i :: 0 <= i < |ms| && ms[i].Bare? ==> ms[i].b != 0x2A && ms[i].b != 0x22 }

  predicate Blank(b: CByte) { b == 0x20 || b == 0x09 || b == 0x0A || b == 0x0D || b == 0x0C }

  predicate AllBlank(s: seq<CByte>) { forall i :: 0 <= i < |s| ==> Blank(s[i]) }

  /** A loose word has no blank in it and does not begin with a quote. */
  predicate TokenOk(t: Token) {
    match t
    case Loose(bs) => bs != [] && bs[0] != 0x22 && forall i :: 0 <= i < |bs| ==> !Blank(bs[i])
    case InQuotes(ms) => MarksOk(ms)
  }

  function TokenText(t: Token): (s: seq<CByte>) {
    match t case Loose(bs) => bs case InQuotes(ms) => [0x22] + MarksText(ms) + [0x22]
  }

  function TokenWord(t: Token): (w: seq<CByte>) { match t case Loose(bs) => bs case InQuotes(ms) => MarksWord(ms) }

  /** What a buffer with room for so many bytes keeps of a word. */
  function Kept(w: seq<CByte>, room: nat): (k: seq<CByte>) { if |w| <= room then w else w[..room] }

  lemma {:induction false} MarksRead(ms: seq<Mark>, rest: seq<CByte>, room: nat)
    requires MarksOk(ms)
    ensures QuotedWord(MarksText(ms) + ([0x22] + rest), room).0 == Kept(MarksWord(ms), room)
    ensures room >= |ms| ==> QuotedWord(MarksText(ms) + ([0x22] + rest), room).1 == [0x22] + rest
    decreases |ms|
  {
    if ms == [] {
      assert MarksText(ms) + ([0x22] + rest) == [0x22] + rest;
    } else if room > 0 {
      var tail := MarksText(ms[1..]) + ([0x22] + rest);
      assert MarksText(ms) + ([0x22] + rest) == MarkText(ms[0]) + tail;
      assert MarksOk(ms[1..]) && MarksWord(ms) == [MarkByte(ms[0])] + MarksWord(ms[1..]);
      hide QuotedWord, MarksText, MarkText, MarksWord, MarkByte, Kept;
      MarkFirst(ms[0], tail, room);
      MarksRead(ms[1..], rest, room - 1);
      KeptCons(MarkByte(ms[0]), MarksWord(ms[1..]), room);
    }
  }

  lemma {:induction false} MarkFirst(m: Mark, tail: seq<CByte>, room: nat)
    requires room > 0 && (m.Bare? ==> m.b != 0x2A && m.b != 0x22)
    ensures var q := QuotedWord(tail, room - 1);
      QuotedWord(MarkText(m) + tail, room).0 == [MarkByte(m)] + q.0 && QuotedWord(MarkText(m) + tail, room).1 == q.1
  {
    var s := MarkText(m) + tail;
    assert s[|MarkText(m)|..] == tail;
    assert QuotedByte(s) == (MarkByte(m), |MarkText(m)|);
  }

  lemma {:induction false} LooseRead(bs: seq<CByte>, rest: seq<CByte>, room: nat)
    requires (forall i :: 0 <= i < |bs| ==> !Blank(bs[i])) && (rest == [] || Blank(rest[0]))
    ensures BareWord(bs + rest, room).0 == Kept(bs, room)
    ensures room >= |bs| ==> BareWord(bs + rest, room).1 == rest
    decreases |bs|
  {
    if bs == [] {
      assert bs + rest == rest;
    } else if room > 0 {
      assert (bs + rest)[1..] == bs[1..] + rest;
      LooseRead(bs[1..], rest, room - 1);
    }
  }

  lemma {:induction false} BlanksSkipped(gap: seq<CByte>, t: seq<CByte>)
    requires AllBlank(gap) && (t == [] || !Blank(t[0]))
    ensures SkipSpaces(gap + t) == t
    decreases |gap|
  {
    if gap == [] {
      assert gap + t == t;
    } else {
      assert (gap + t)[1..] == gap[1..] + t;
      BlanksSkipped(gap[1..], t);
    }
  }

  lemma {:induction false} TokenIsWord(t: Token, rest: seq<CByte>, room: nat)
    requires TokenOk(t) && room > 0 && (t.Loose? ==> rest == [] || Blank(rest[0]))
    ensures var s := TokenText(t) + rest;
      && s != [] && !Blank(s[0]) && Word(s, room).0 == Kept(TokenWord(t), room)
      && (room >= |TokenWord(t)| ==> Word(s, room).1 == rest)
  {
    var s := TokenText(t) + rest;
    match t
    case Loose(bs) => LooseRead(bs, rest, room);
    case InQuotes(ms) =>
      assert s == [0x22] + (MarksText(ms) + ([0x22] + rest));
      MarksRead(ms, rest, room);
      assert s[1..] == MarksText(ms) + ([0x22] + rest) && ([0x22] + rest)[1..] == rest;
  }

  /**
    How ssh's start-up code reads any line: blanks, then a loose or a quoted word, which is the next
    argument; the 256th place and the 8192nd byte are never used, and the word that would reach
    the latter is cut there and is the last.
   */
  lemma {:induction false} TokenRead(gap: seq<CByte>, t: Token, rest: seq<CByte>, w: nat, argc: nat)
    requires AllBlank(gap) && TokenOk(t) && (t.Loose? ==> rest == [] || Blank(rest[0]))
    ensures var line, word := gap + (TokenText(t) + rest), TokenWord(t);
      WordsOf(line, w, argc) ==
        if argc >= 256 || w >= 8191 then []
        else if w + |word| <= 8191 then [word] + WordsOf(rest, w + |word| + 1, argc + 1)
        else [word[..8191 - w]]
  {
    var line := gap + (TokenText(t) + rest);
    if argc >= 256 || w >= 8191 {
      FullWords(line, w, argc);
    } else {
      TokenIsWord(t, rest, 8191 - w);
      BlanksSkipped(gap, TokenText(t) + rest);
      hide Word, SkipSpaces, TokenText, TokenWord, WordsOf, TokenOk, Blank, AllBlank;
      FirstTaken(line, TokenText(t) + rest, TokenWord(t), rest, w, argc);
    }
  }

  lemma {:induction false} FirstTaken(line: seq<CByte>, s: seq<CByte>, word: seq<CByte>, rest: seq<CByte>, w: nat,
                                      argc: nat)
    requires argc < 256 && w < 8191 && SkipSpaces(line) == s != [] && !IsSpace(s[0])
    requires Word(s, 8191 - w).0 == Kept(word, 8191 - w) && (8191 - w >= |word| ==> Word(s, 8191 - w).1 == rest)
    ensures WordsOf(line, w, argc) ==
      if w + |word| <= 8191 then [word] + WordsOf(rest, w + |word| + 1, argc + 1) else [word[..8191 - w]]
  {
    hide Word, SkipSpaces;
    WordsOfFirst(line, w, argc);
    if w + |word| > 8191 {
      FullWords(Word(s, 8191 - w).1, 8192, argc + 1);
    }
    hide WordsOf;
  }

  lemma {:induction false} KeptCons(b: CByte, w: seq<CByte>, room: nat)
    requires room > 0
    ensures Kept([b] + w, room) == [b] + Kept(w, room - 1)
  {
  }

  lemma {:induction false} OpenNone(end: seq<CByte>, room: nat)
    requires end == [] || end == [0x2A]
    ensures QuotedWord(end, room).0 == Kept(end, room) && (room >= |end| ==> QuotedWord(end, room).1 == [])
  {
    if end != [] && room > 0 {
      assert QuotedByte(end) == (0x2A, 1) && end[1..] == [];
    }
  }

  lemma {:induction false} OpenRead(ms: seq<Mark>, end: seq<CByte>, room: nat)
    requires MarksOk(ms) && (end == [] || end == [0x2A])
    ensures QuotedWord(MarksText(ms) + end, room).0 == Kept(MarksWord(ms) + end, room)
    ensures room >= |ms| + |end| ==> QuotedWord(MarksText(ms) + end, room).1 == []
    decreases |ms|
  {
    if ms == [] {
      assert MarksText(ms) + end == end && MarksWord(ms) + end == end;
      hide MarksText, MarksWord;
      OpenNone(end, room);
    } else if room > 0 {
      var tail := MarksText(ms[1..]) + end;
      assert MarksText(ms) + end == MarkText(ms[0]) + tail;
      assert MarksWord(ms) + end == [MarkByte(ms[0])] + (MarksWord(ms[1..]) + end);
      assert MarksOk(ms[1..]);
      hide QuotedWord, MarksText, MarkText, MarksWord, MarkByte, Kept;
      MarkFirst(ms[0], tail, room);
      OpenRead(ms[1..], end, room - 1);
      KeptCons(MarkByte(ms[0]), MarksWord(ms[1..]) + end, room);
    }
  }

  /** A quote that is never closed takes the rest of the line, a star at its very end included. */
  lemma {:induction false} OpenQuoteRead(gap: seq<CByte>, ms: seq<Mark>, end: seq<CByte>, w: nat, argc: nat)
    requires AllBlank(gap) && MarksOk(ms) && (end == [] || end == [0x2A]) && argc < 256 && w < 8191
    ensures var line := gap + ([0x22] + (MarksText(ms) + end));
      WordsOf(line, w, argc) == [Kept(MarksWord(ms) + end, 8191 - w)]
  {
    var s := [0x22] + (MarksText(ms) + end);
    var room := 8191 - w;
    OpenRead(ms, end, room);
    assert s[1..] == MarksText(ms) + end;
    BlanksSkipped(gap, s);
    var (word, rest) := Word(s, room);
    assert word == Kept(MarksWord(ms) + end, room) && (|word| < room ==> rest == []);
    hide Word, SkipSpaces, QuotedWord, MarksWord, MarksText;
    WordsOfFirst(gap + s, w, argc);
    if rest == [] { BlankRead([], w + |word| + 1, argc + 1); } else { FullWords(rest, w + |word| + 1, argc + 1); }
  }

  /** Blanks alone are no argument. */
  lemma {:induction false} BlankRead(gap: seq<CByte>, w: nat, argc: nat)
    requires AllBlank(gap)
    ensures WordsOf(gap, w, argc) == []
  {
    BlanksSkipped(gap, []);
    assert gap + [] == gap;
    NoMoreWords(gap, w, argc);
  }

  /** The C string in a buffer, up to its NUL. */
  method CString(line: array<int>, ghost s: seq<CByte>) returns (r: seq<CByte>)
    requires Holds(line[..], s)
    ensures r == s
  {
    r := [];
    var i := 0;
    assert line[|s|] == 0 && forall k :: 0 <= k < |s| ==> line[..][k] == line[..][..|s|][k] == s[k];
    while line[i] != 0
      invariant 0 <= i <= |s| && r == s[..i]
      decreases |s| - i
    {
      r := r + [line[i]];
      i := i + 1;
    }
  }

  /**
    Both programs, one after the other: whatever arguments scp accepts, ssh's tokeniser lays out
    exactly their first 255, each ended by a NUL at its start in the vector.
   */
  method HandOver(line: array<int>, list: seq<seq<CByte>>, shim: ArgvShim) returns (ok: bool, w: nat)
    requires line.Length == COMMAND_MAX && shim.buf.Length == ARGV_BUFSIZE && line != shim.buf
    modifies line, shim, shim.buf
    ensures ok <==> AllPlain(list) && |LineOf(list)| + 2 <= 2048
    ensures ok ==> Laid(shim.buf[..], shim.vec, First(list, 255), w)
  {
    hide AllPlain, LineOf, Holds, WordsOf, Laid, First;
    var used;
    w := 0;
    ok, used := BuildLine(line, list);
    if ok {
      var s := CString(line, LineOf(list) + [LF]);
      w := shim.Tokenise(s);
      RoundTrip(list);
    }
  }

  function Starring(b: CByte): (s: seq<CByte>) { if NeedsStar(b) then [STAR, b] else [b] }

  /** Where a quoted argument ends can be told from its bytes. */
  lemma {:induction false} StarredEnds(x: seq<CByte>, y: seq<CByte>, p: seq<CByte>, q: seq<CByte>)
    requires Starred(x) + ([QUOTE] + p) == Starred(y) + ([QUOTE] + q)
    ensures x == y && p == q
    decreases |x| + |y|
  {
    var l, r := Starred(x) + ([QUOTE] + p), Starred(y) + ([QUOTE] + q);
    StarredFirst(x, [QUOTE] + p);
    StarredFirst(y, [QUOTE] + q);
    hide Starred;
    if x == [] || y == [] {
      assert l[0] == r[0];
      assert p == l[1..] && q == r[1..];
    } else {
      assert l[0] == r[0] && (NeedsStar(x[0]) || NeedsStar(y[0]) ==> l[1] == r[1]);
      var n := |Starring(x[0])|;
      assert l[n..] == Starred(x[1..]) + ([QUOTE] + p) && r[n..] == Starred(y[1..]) + ([QUOTE] + q);
      StarredEnds(x[1..], y[1..], p, q);
      assert x == [x[0]] + x[1..] && y == [y[0]] + y[1..];
    }
  }

  lemma {:induction false} StarredFirst(x: seq<CByte>, r: seq<CByte>)
    ensures x == [] ==> Starred(x) + r == r
    ensures x != [] ==> Starred(x) + r == Starring(x[0]) + (Starred(x[1..]) + r)
  {
    if x == [] {
      assert Starred(x) == [];
    } else {
      var a, b := Starring(x[0]), Starred(x[1..]);
      assert Starred(x) == a + b;
      hide Starred, Starring;
      Regroup(a, b, r);
    }
  }

  lemma Regroup(a: seq<CByte>, b: seq<CByte>, c: seq<CByte>)
    ensures (a + b) + c == a + (b + c)
  {
  }

  lemma QuotedDetermines(x: seq<CByte>, y: seq<CByte>, p: seq<CByte>, q: seq<CByte>)
    requires Quoted(x) + p == Quoted(y) + q
    ensures x == y && p == q
  {
    hide Starred;
    assert (Quoted(x) + p)[1..] == Starred(x) + ([QUOTE] + p);
    assert (Quoted(y) + q)[1..] == Starred(y) + ([QUOTE] + q);
    StarredEnds(x, y, p, q);
  }

  lemma {:induction false} TailDetermines(a: seq<seq<CByte>>, b: seq<seq<CByte>>)
    requires Tail(a) == Tail(b)
    ensures a == b
    decreases |a|
  {
    if a != [] && b != [] {
      assert Tail(a)[1..] == Quoted(a[0]) + Tail(a[1..]) && Tail(b)[1..] == Quoted(b[0]) + Tail(b[1..]);
      hide Quoted, Tail;
      QuotedDetermines(a[0], b[0], Tail(a[1..]), Tail(b[1..]));
      TailDetermines(a[1..], b[1..]);
      assert a == [a[0]] + a[1..] && b == [b[0]] + b[1..];
    }
  }

  /** Two different lists of arguments never make the same line, however long. */
  lemma LineDeterminesArguments(a: seq<seq<CByte>>, b: seq<seq<CByte>>)
    requires LineOf(a) == LineOf(b)
    ensures a == b
  {
    if a != [] && b != [] {
      hide Quoted, Tail;
      QuotedDetermines(a[0], b[0], Tail(a[1..]), Tail(b[1..]));
      TailDetermines(a[1..], b[1..]);
      assert a == [a[0]] + a[1..] && b == [b[0]] + b[1..];
    }
  }
}
