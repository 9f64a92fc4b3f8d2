/**
  The CHARSET= keyword of the ssh client: taken out of argv, in place, before Dropbear sees it
  (clients/dropbear/amiga_dropbear.c).
 */
module ArgvFilter {
  import opened Words

  type Word = seq<CByte>

  const DASH: CByte := 45
  const KEYWORD: seq<CByte> := [67, 72, 65, 82, 83, 69, 84, 61]                                          // "CHARSET="
  // "piLRoBJlQWKIMcmb"
  const TAKES_VALUE: seq<CByte> := [112, 105, 76, 82, 111, 66, 74, 108, 81, 87, 75, 73, 77, 99, 109, 98]

  /** `((x ^ y) & ~0x20) == 0`: equal but for bit 5. */
  predicate SameLetter(x: int, y: int) { x % 32 == y % 32 && x / 64 == y / 64 }

  /** cs_name_prefix: the bytes of the prefix, one by one, up to bit 5. */
  method NamePrefix(a: Word, prefix: Word) returns (r: bool)
    ensures r <==> Prefixed(a, prefix)
  {
    var i := 0;
    while i < |prefix| && SameLetter(At(a, i), prefix[i])
      invariant 0 <= i <= |prefix| && forall j :: 0 <= j < i ==> SameLetter(At(a, j), prefix[j])
      decreases |prefix| - i
    {
      i := i + 1;
    }
    r := i == |prefix|;
    assert !r ==> !SameLetter(At(a, i), prefix[i]);
  }

  predicate Prefixed(a: Word, prefix: Word) { forall i :: 0 <= i < |prefix| ==> SameLetter(At(a, i), prefix[i]) }

  predicate IsKeyword(a: Word) { Prefixed(a, KEYWORD) }

  predicate IsFlag(a: Word) { At(a, 0) == DASH }

  /**
    Flags run together, and the first one that takes a value takes the rest of the word, or with
    nothing behind it the next word: so the next word goes with this one when its last flag takes
    a value and no earlier one does.
   */
  predicate WantsNext(a: Word) {
    |a| > 1 && a[|a| - 1] in TAKES_VALUE && forall j :: 1 <= j < |a| - 1 ==> a[j] !in TAKES_VALUE
  }

  /** A letter of ASCII. */
  predicate IsLetter(b: int) { 0x41 <= b <= 0x5A || 0x61 <= b <= 0x7A }

  /** The same word, with any of its ASCII letters in the other case. */
  predicate SameButCase(a: Word, b: Word) {
    && |a| == |b|
    && forall i :: 0 <= i < |a| ==>
         a[i] == b[i] || (IsLetter(a[i]) && IsLetter(b[i]) && (a[i] == b[i] + 0x20 || b[i] == a[i] + 0x20))
  }

  /** Two bytes agree in every bit but bit 5. */
  lemma SameLetterMeans(x: u8, y: u8)
    ensures SameLetter(x, y) <==> x == y || (x == y + 0x20 && HasBit(x, 5)) || (y == x + 0x20 && HasBit(y, 5))
  {
    FifthBit(x);
    FifthBit(y);
    hide Bit;
    Parts(x / 64, Bit(x, 5), x % 32, y / 64, Bit(y, 5), y % 32);
  }

  lemma Parts(a: nat, b: nat, c: nat, a': nat, b': nat, c': nat)
    requires b <= 1 && b' <= 1 && c < 32 && c' < 32
    ensures var x, y := 64 * a + 32 * b + c, 64 * a' + 32 * b' + c';
      (c == c' && a == a') <==> x == y || (x == y + 32 && b == 1) || (y == x + 32 && b' == 1)
  {
  }

  lemma FifthBit(x: u8)
    ensures Bit(x, 5) == x / 32 % 2 && x == 64 * (x / 64) + 32 * Bit(x, 5) + x % 32
  {
    assert Bit(x, 5) == Bit(x / 2, 4) == Bit(x / 2 / 2, 3);
    assert Bit(x / 2 / 2, 3) == Bit(x / 2 / 2 / 2, 2) == Bit(x / 2 / 2 / 2 / 2, 1);
    assert Bit(x / 2 / 2 / 2 / 2, 1) == Bit(x / 2 / 2 / 2 / 2 / 2, 0);
    assert x / 2 / 2 / 2 / 2 / 2 == x / 32;
  }

  /** The keyword and the flags with values, spelled out. */
  lemma Spelled(i: nat)
    ensures |KEYWORD| == |"CHARSET="| && (i < |KEYWORD| ==> KEYWORD[i] == "CHARSET="[i] as int)
    ensures |TAKES_VALUE| == |"piLRoBJlQWKIMcmb"|
    ensures i < |TAKES_VALUE| ==> TAKES_VALUE[i] == "piLRoBJlQWKIMcmb"[i] as int
  {
  }

  // ---------------------------------------------------------------- what each word is

  datatype Role = Keyword | Flag | Value | Host | Command

  /** Where the scan is: before the host, behind it, in the remote command; or at an option's value. */
  datatype Scan = Before | Behind | InCommand | ValueThen(after: Scan)

  function RoleOf(s: Scan, a: Word): (r: Role) {
    match s
    case ValueThen(_) => Value
    case InCommand => Command
    case _ =>
      if !IsFlag(a) && IsKeyword(a) then Keyword
      else if IsFlag(a) then Flag
      else if s == Before then Host else Command
  }

  function Next(s: Scan, a: Word): (t: Scan) {
    match RoleOf(s, a)
    case Value => s.after
    case Command => InCommand
    case Keyword => s
    case Host => Behind
    case Flag => if WantsNext(a) then ValueThen(s) else s
  }

  /** The roles of the words behind the program's name. */
  function Roles(s: Scan, ws: seq<Word>): (rs: seq<Role>)
    ensures |rs| == |ws|
    decreases |ws|
  {
    if ws == [] then [] else [RoleOf(s, ws[0])] + Roles(Next(s, ws[0]), ws[1..])
  }

  /** The words that stay: all but the keywords. */
  function Kept(s: Scan, ws: seq<Word>): (ks: seq<Word>)
    decreases |ws|
  {
    if ws == [] then []
    else (if RoleOf(s, ws[0]) == Keyword then [] else [ws[0]]) + Kept(Next(s, ws[0]), ws[1..])
  }

  /** The codeset named: the last keyword's value that is not empty, or what was set before. */
  function Named(s: Scan, ws: seq<Word>, name: Option<Word>): (r: Option<Word>)
    decreases |ws|
  {
    if ws == [] then name
    else Named(Next(s, ws[0]), ws[1..], if RoleOf(s, ws[0]) == Keyword && |ws[0]| > 8 then Some(ws[0][8..]) else name)
  }

  /** Upper or lower case makes no difference to what a word is, only to which flags take a value. */
  lemma CaseIgnored(s: Scan, a: Word, b: Word)
    requires SameButCase(a, b)
    ensures RoleOf(s, a) == RoleOf(s, b)
  {
    assert IsFlag(a) <==> IsFlag(b);
    forall i | 0 <= i < |KEYWORD| ensures SameLetter(At(a, i), KEYWORD[i]) <==> SameLetter(At(b, i), KEYWORD[i]) {
      CaseOfByte(At(a, i), At(b, i), KEYWORD[i]);
    }
    assert IsKeyword(a) <==> IsKeyword(b);
    hide IsKeyword, IsFlag;
  }

  lemma CaseOfByte(x: int, y: int, k: int)
    requires 0 <= x < 256 && 0 <= y < 256
    requires x == y || (IsLetter(x) && IsLetter(y) && (x == y + 0x20 || y == x + 0x20))
    ensures SameLetter(x, k) <==> SameLetter(y, k)
  {
  }

  // ---------------------------------------------------------------- the filter

  /** host and rest, the two flags of the loop. */
  function ScanOf(host: bool, rest: bool): (s: Scan) { if rest then InCommand else if host then Behind else Before }

  class Client {
    var csName: Option<Word>

    /** The inner loop over run-together flags. */
    method TakesNext(a: Word) returns (r: bool)
      ensures r == WantsNext(a)
    {
      var j := 1;
      while j < |a|
        invariant 1 <= j && forall k :: 1 <= k < j && k < |a| ==> a[k] !in TAKES_VALUE
        decreases |a| - j
      {
        if a[j] in TAKES_VALUE {
          return j + 1 == |a|;
        }
        j := j + 1;
      }
      return false;
    }

    /**
      amiga_client_argv_filter: what stays is moved down in place, the write index never passing
      the read index. The count returned is where the closing NULL goes.
     */
    method Filter(argc: nat, argv: array<Word>) returns (o: nat)
      requires 1 <= argc <= argv.Length
      modifies this, argv
      ensures 1 <= o <= argc && argv[0] == old(argv[0])
      ensures argv[1..o] == Kept(Before, old(argv[1..argc]))
      ensures csName == Named(Before, old(argv[1..argc]), old(csName))
      ensures argv[argc..] == old(argv[argc..])
    {
      ghost var ws, was, name0 := argv[1..argc], argv[..], csName;
      var i, host, rest := 1, false, false;
      o := 1;
      assert ws[0..] == ws && argv[1..1] == [];
      hide Kept, Named, RoleOf, Next, ScanOf;
      assert Progress(ws, 0, argv[1..o], Before, csName, name0);
      StartOf();
      while i < argc
        invariant 1 <= o <= i <= argc && argv[0] == was[0]
        invariant forall k :: i <= k < argv.Length ==> argv[k] == was[k]
        invariant Progress(ws, i - 1, argv[1..o], ScanOf(host, rest), csName, name0)
        decreases argc - i
      {
        o, i, host, rest := Turn(argc, argv, o, i, host, rest, ws, was, name0);
      }
      Finished(ws, argv[1..o], ScanOf(host, rest), csName, name0);
    }

    /** One turn of the loop. */
    method Turn(argc: nat, argv: array<Word>, o0: nat, i0: nat, host0: bool, rest0: bool,
                ghost ws: seq<Word>, ghost was: seq<Word>, ghost name0: Option<Word>)
      returns (o: nat, i: nat, host: bool, rest: bool)
      requires 1 <= o0 <= i0 < argc <= argv.Length == |was| && ws == was[1..argc]
      requires argv[0] == was[0] && forall k :: i0 <= k < argv.Length ==> argv[k] == was[k]
      requires Progress(ws, i0 - 1, argv[1..o0], ScanOf(host0, rest0), csName, name0)
      modifies this, argv
      ensures i0 < i <= argc && 1 <= o <= i && argv[0] == was[0]
      ensures forall k :: i <= k < argv.Length ==> argv[k] == was[k]
      ensures Progress(ws, i - 1, argv[1..o], ScanOf(host, rest), csName, name0)
    {
      hide Kept, Named, Next, Progress, WantsNext;
      o, i, host, rest := o0, i0, host0, rest0;
      var a := argv[i];
      assert a == ws[i - 1];
      NextScan(host, rest, a);
      var keyword := NamePrefix(a, KEYWORD);
      if !rest && !IsFlag(a) && keyword {
        Step(ws, i - 1, argv[1..o], ScanOf(host, rest), csName, name0);
        if |a| > 8 {
          csName := Some(a[8..]);
        }
        i := i + 1;
        return;
      }
      Keep(argc, argv, o, i, ScanOf(host, rest), ws, was, name0);
      o, i := o + 1, i + 1;
      if rest {
        return;
      }
      if !IsFlag(a) {
        if host {
          rest := true;
        }
        host := true;
        return;
      }
      o, i := TakeValue(argc, argv, o, i, host, a, ws, was, name0);
    }

    /** argv[o] = argv[i], for a word that stays. */
    method Keep(argc: nat, argv: array<Word>, o: nat, i: nat, ghost s: Scan,
                ghost ws: seq<Word>, ghost was: seq<Word>, ghost name0: Option<Word>)
      requires 1 <= o <= i < argc <= argv.Length == |was| && ws == was[1..argc]
      requires argv[0] == was[0] && forall k :: i <= k < argv.Length ==> argv[k] == was[k]
      requires Progress(ws, i - 1, argv[1..o], s, csName, name0) && RoleOf(s, ws[i - 1]) != Keyword
      modifies argv
      ensures argv[0] == was[0] && forall k :: i < k < argv.Length ==> argv[k] == was[k]
      ensures Progress(ws, i, argv[1..o + 1], Next(s, ws[i - 1]), csName, name0)
    {
      hide Kept, Named, Next, Progress, RoleOf;
      Step(ws, i - 1, argv[1..o], s, csName, name0);
      assert argv[i] == ws[i - 1];
      argv[o] := argv[i];
      assert argv[1..o + 1] == old(argv[1..o]) + [ws[i - 1]];
    }

    /** The inner loop's effect: the next word goes with a flag that takes one, whatever it looks like. */
    method TakeValue(argc: nat, argv: array<Word>, o0: nat, i0: nat, host: bool, a: Word,
                     ghost ws: seq<Word>, ghost was: seq<Word>, ghost name0: Option<Word>)
      returns (o: nat, i: nat)
      requires 1 <= o0 <= i0 <= argc <= argv.Length == |was| && ws == was[1..argc] && IsFlag(a)
      requires argv[0] == was[0] && forall k :: i0 <= k < argv.Length ==> argv[k] == was[k]
      requires var s := ScanOf(host, false);
        Progress(ws, i0 - 1, argv[1..o0], if WantsNext(a) then ValueThen(s) else s, csName, name0)
      modifies argv
      ensures i0 <= i <= argc && 1 <= o <= i && argv[0] == was[0]
      ensures forall k :: i <= k < argv.Length ==> argv[k] == was[k]
      ensures Progress(ws, i - 1, argv[1..o], ScanOf(host, false), csName, name0)
    {
      hide Kept, Named, Progress, WantsNext;
      o, i := o0, i0;
      var more := TakesNext(a);
      if more {
        if i < argc {
          Keep(argc, argv, o, i, ValueThen(ScanOf(host, false)), ws, was, name0);
          o, i := o + 1, i + 1;
        } else {
          AtEnd(ws, argv[1..o], ValueThen(ScanOf(host, false)), ScanOf(host, false), csName, name0);
        }
      }
    }
  }

  /** What is left to filter and to look for names in, with what is done, gives the whole. */
  ghost predicate Progress(ws: seq<Word>, i: nat, done: seq<Word>, s: Scan, name: Option<Word>, name0: Option<Word>) {
    i <= |ws| && Kept(Before, ws) == done + Kept(s, ws[i..]) && Named(Before, ws, name0) == Named(s, ws[i..], name)
  }

  lemma StartOf()
    ensures ScanOf(false, false) == Before
  {
  }

  lemma Finished(ws: seq<Word>, done: seq<Word>, s: Scan, name: Option<Word>, name0: Option<Word>)
    requires Progress(ws, |ws|, done, s, name, name0)
    ensures done == Kept(Before, ws) && name == Named(Before, ws, name0)
  {
    assert ws[|ws|..] == [];
  }

  /** With nothing left it does not matter whether a value was still expected. */
  lemma AtEnd(ws: seq<Word>, done: seq<Word>, s: Scan, t: Scan, name: Option<Word>, name0: Option<Word>)
    requires Progress(ws, |ws|, done, s, name, name0)
    ensures Progress(ws, |ws|, done, t, name, name0)
  {
    assert ws[|ws|..] == [];
  }

  lemma Step(ws: seq<Word>, i: nat, done: seq<Word>, s: Scan, name: Option<Word>, name0: Option<Word>)
    requires i < |ws| && Progress(ws, i, done, s, name, name0)
    ensures var a := ws[i];
      if RoleOf(s, a) == Keyword then
        Progress(ws, i + 1, done, Next(s, a), if |a| > 8 then Some(a[8..]) else name, name0)
      else Progress(ws, i + 1, done + [a], Next(s, a), name, name0)
  {
    assert ws[i..][0] == ws[i] && ws[i..][1..] == ws[i + 1..];
    hide RoleOf, Next;
    KeptFirst(s, ws[i..]);
  }

  lemma KeptFirst(s: Scan, ws: seq<Word>)
    requires ws != []
    ensures Kept(s, ws) == (if RoleOf(s, ws[0]) == Keyword then [] else [ws[0]]) + Kept(Next(s, ws[0]), ws[1..])
  {
  }

  lemma NextScan(host: bool, rest: bool, a: Word)
    ensures var s := ScanOf(host, rest);
      Next(s, a) == if rest then InCommand else if IsFlag(a) then (if WantsNext(a) then ValueThen(s) else s)
                    else if IsKeyword(a) then s else ScanOf(true, host)
  {
  }

  // ---------------------------------------------------------------- what the filter does

  /** The scan behind a beginning of the words. */
  function ScanAt(s: Scan, ws: seq<Word>): (t: Scan)
    decreases |ws|
  {
    if ws == [] then s else ScanAt(Next(s, ws[0]), ws[1..])
  }

  lemma {:induction false} FirstOf(s: Scan, ws: seq<Word>)
    requires ws != []
    ensures var t := Next(s, ws[0]);
      && Kept(s, ws) == (if RoleOf(s, ws[0]) == Keyword then [] else [ws[0]]) + Kept(t, ws[1..])
      && Roles(s, ws) == [RoleOf(s, ws[0])] + Roles(t, ws[1..])
      && ScanAt(s, ws) == ScanAt(t, ws[1..])
  {
    hide RoleOf, Next;
  }

  lemma Regroup<T>(a: seq<T>, b: seq<T>, c: seq<T>)
    ensures a + (b + c) == (a + b) + c
  {
  }

  lemma {:induction false} SplitKept(s: Scan, a: seq<Word>, b: seq<Word>)
    ensures Kept(s, a + b) == Kept(s, a) + Kept(ScanAt(s, a), b)
    decreases |a|
  {
    if a == [] {
      assert a + b == b;
    } else {
      FirstOf(s, a);
      FirstOf(s, a + b);
      hide RoleOf, Next, Kept, Roles, ScanAt;
      assert (a + b)[1..] == a[1..] + b && (a + b)[0] == a[0];
      SplitKept(Next(s, a[0]), a[1..], b);
      var one: seq<Word> := if RoleOf(s, a[0]) == Keyword then [] else [a[0]];
      Regroup(one, Kept(Next(s, a[0]), a[1..]), Kept(ScanAt(s, a), b));
    }
  }

  lemma {:induction false} SplitRoles(s: Scan, a: seq<Word>, b: seq<Word>)
    ensures Roles(s, a + b) == Roles(s, a) + Roles(ScanAt(s, a), b)
    decreases |a|
  {
    if a == [] {
      assert a + b == b;
    } else {
      FirstOf(s, a);
      FirstOf(s, a + b);
      hide RoleOf, Next, Kept, Roles, ScanAt;
      assert (a + b)[1..] == a[1..] + b && (a + b)[0] == a[0];
      SplitRoles(Next(s, a[0]), a[1..], b);
      Regroup([RoleOf(s, a[0])], Roles(Next(s, a[0]), a[1..]), Roles(ScanAt(s, a), b));
    }
  }

  lemma Split(s: Scan, a: seq<Word>, b: seq<Word>)
    ensures Kept(s, a + b) == Kept(s, a) + Kept(ScanAt(s, a), b)
    ensures Roles(s, a + b) == Roles(s, a) + Roles(ScanAt(s, a), b)
  {
    hide *;
    SplitKept(s, a, b);
    SplitRoles(s, a, b);
  }

  lemma {:induction false} CommandStays(ws: seq<Word>)
    ensures Kept(InCommand, ws) == ws && forall i :: 0 <= i < |ws| ==> Roles(InCommand, ws)[i] == Command
    decreases |ws|
  {
    if ws != [] {
      CommandStays(ws[1..]);
    }
  }

  lemma {:induction false} RoleAt(s: Scan, ws: seq<Word>, i: nat)
    requires i < |ws|
    ensures Roles(s, ws)[i] == RoleOf(ScanAt(s, ws[..i]), ws[i])
  {
    hide RoleOf, Next;
    assert ws == ws[..i] + ws[i..];
    Split(s, ws[..i], ws[i..]);
  }

  lemma {:induction false} ScanSnoc(s: Scan, ws: seq<Word>, a: Word)
    ensures ScanAt(s, ws + [a]) == Next(ScanAt(s, ws), a)
    decreases |ws|
  {
    hide RoleOf, Next;
    if ws == [] {
      assert ws + [a] == [a];
      assert [a][1..] == [];
    } else {
      ScanSnoc(Next(s, ws[0]), ws[1..], a);
      assert (ws + [a])[1..] == ws[1..] + [a];
    }
  }

  lemma KeywordIsPlain(a: Word)
    requires IsKeyword(a)
    ensures !IsFlag(a)
  {
    assert SameLetter(At(a, 0), KEYWORD[0]);
  }

  /** Some word before the end of `ws` begins the remote command. */
  ghost predicate HasCommand(ws: seq<Word>) { exists i :: 0 <= i < |ws| && Roles(Before, ws)[i] == Command }

  /** The last word of `ws` is a flag whose value is the next word. */
  predicate ExpectsValue(ws: seq<Word>) {
    ws != [] && Roles(Before, ws)[|ws| - 1] == Flag && WantsNext(ws[|ws| - 1])
  }

  /** The scan state, told from the words alone. */
  lemma {:induction false} ScanMeans(ws: seq<Word>)
    ensures ScanAt(Before, ws).ValueThen? <==> ExpectsValue(ws)
    ensures ScanAt(Before, ws).InCommand? <==> HasCommand(ws)
    ensures ScanAt(Before, ws).ValueThen? ==> ScanAt(Before, ws).after.Before? || ScanAt(Before, ws).after.Behind?
    decreases |ws|
  {
    if ws != [] {
      var init, a := ws[..|ws| - 1], ws[|ws| - 1];
      assert ws == init + [a];
      ScanMeans(init);
      ScanSnoc(Before, init, a);
      Split(Before, init, [a]);
      RoleAt(Before, ws, |ws| - 1);
      assert Roles(Before, ws)[..|init|] == Roles(Before, init);
      hide Roles, WantsNext, IsKeyword;
      assert HasCommand(ws) <==> HasCommand(init) || Roles(Before, ws)[|ws| - 1] == Command by {
        if HasCommand(init) {
          var i :| 0 <= i < |init| && Roles(Before, init)[i] == Command;
          assert Roles(Before, ws)[i] == Command;
        }
      }
    }
  }

  /** Before the end of these roles the remote command has begun, or the host has been named. */
  ghost predicate Begun(rs: seq<Role>, r: Role) { exists j :: 0 <= j < |rs| && rs[j] == r }

  /**
    What each word is, from the words alone.  Behind a flag that takes one, a value; else, once the
    remote command has begun, more of it; else a keyword or a flag by its looks; else the host, and
    when that has been named, the first word of the remote command.
   */
  ghost predicate RoleFits(ws: seq<Word>, rs: seq<Role>, i: nat)
    requires i < |ws| == |rs|
  {
    rs[i] ==
      if Begun(rs[..i], Command) then Command
      else if i > 0 && rs[i - 1] == Flag && WantsNext(ws[i - 1]) then Value
      else if At(ws[i], 0) == 0x2D then Flag
      else if IsKeyword(ws[i]) then Keyword
      else if Begun(rs[..i], Host) then Command
      else Host
  }

  /** The scan knows whether the host has been named. */
  lemma {:induction false} HostSeen(ws: seq<Word>)
    ensures var s := ScanAt(Before, ws);
      Begun(Roles(Before, ws), Host) <==> s.Behind? || s.InCommand? || (s.ValueThen? && s.after.Behind?)
    decreases |ws|
  {
    if ws != [] {
      var init, a := ws[..|ws| - 1], ws[|ws| - 1];
      assert ws == init + [a];
      HostSeen(init);
      ScanMeans(init);
      ScanSnoc(Before, init, a);
      Split(Before, init, [a]);
      RoleAt(Before, ws, |ws| - 1);
      var rs := Roles(Before, ws);
      assert rs[..|init|] == Roles(Before, init) && rs == rs[..|init|] + [rs[|init|]];
      BegunSnoc(rs[..|init|], rs[|init|], Host);
      hide Roles, WantsNext, IsKeyword, Begun;
    }
  }

  lemma BegunSnoc(rs: seq<Role>, x: Role, r: Role)
    ensures Begun(rs + [x], r) <==> Begun(rs, r) || x == r
  {
    if Begun(rs, r) {
      var j :| 0 <= j < |rs| && rs[j] == r;
      assert (rs + [x])[j] == r;
    }
    if x == r { assert (rs + [x])[|rs|] == r; }
  }

  lemma {:induction false} RolePrefix(ws: seq<Word>, i: nat)
    requires i <= |ws|
    ensures Roles(Before, ws)[..i] == Roles(Before, ws[..i])
  {
    assert ws == ws[..i] + ws[i..];
    Split(Before, ws[..i], ws[i..]);
  }

  lemma RoleFromScan(s: Scan, a: Word, command: bool, value: bool, host: bool)
    requires (s.InCommand? <==> command) && (s.ValueThen? <==> value)
    requires host <==> s.Behind? || s.InCommand? || (s.ValueThen? && s.after.Behind?)
    ensures RoleOf(s, a) ==
      if command then Command else if value then Value else if At(a, 0) == 0x2D then Flag
      else if IsKeyword(a) then Keyword else if host then Command else Host
  {
    if IsKeyword(a) { KeywordIsPlain(a); }
    hide IsKeyword;
  }

  lemma {:induction false} ExpectsIff(ws: seq<Word>, i: nat)
    requires i <= |ws|
    ensures ExpectsValue(ws[..i]) <==> i > 0 && Roles(Before, ws)[i - 1] == Flag && WantsNext(ws[i - 1])
  {
    RolePrefix(ws, i);
    if i > 0 { assert Roles(Before, ws)[..i][i - 1] == Roles(Before, ws)[i - 1]; }
    hide Roles, WantsNext;
  }

  /** The scan's roles are the ones that fit, word by word. */
  lemma {:induction false} RolesFit(ws: seq<Word>, i: nat)
    requires i < |ws|
    ensures RoleFits(ws, Roles(Before, ws), i)
  {
    hide Roles, WantsNext, IsKeyword, Begun, ScanAt, RoleOf, ExpectsValue, HasCommand;
    var rs, init := Roles(Before, ws), ws[..i];
    RolePrefix(ws, i);
    RoleAt(Before, ws, i);
    ScanMeans(init);
    HostSeen(init);
    HasIsBegun(init);
    ExpectsIff(ws, i);
    RoleFromScan(ScanAt(Before, init), ws[i], Begun(rs[..i], Command), ExpectsValue(init), Begun(rs[..i], Host));
  }

  lemma HasIsBegun(ws: seq<Word>)
    ensures HasCommand(ws) <==> Begun(Roles(Before, ws), Command)
  {
  }

  /** And no other roles fit. */
  lemma {:induction false} RolesUnique(ws: seq<Word>, rs: seq<Role>)
    requires |rs| == |ws|
    ensures rs == Roles(Before, ws) <==> forall i: nat :: i < |ws| ==> RoleFits(ws, rs, i)
  {
    var qs := Roles(Before, ws);
    if rs == qs {
      forall i: nat | i < |ws| ensures RoleFits(ws, rs, i) { RolesFit(ws, i); }
    }
    if forall i: nat :: i < |ws| ==> RoleFits(ws, rs, i) {
      SameRoles(ws, rs, |ws|);
      assert rs[..|ws|] == rs && qs[..|ws|] == qs;
    }
  }

  lemma {:induction false} SameRoles(ws: seq<Word>, rs: seq<Role>, n: nat)
    requires n <= |ws| == |rs| && forall i: nat :: i < |ws| ==> RoleFits(ws, rs, i)
    ensures rs[..n] == Roles(Before, ws)[..n]
    decreases n
  {
    if n > 0 {
      var qs, i := Roles(Before, ws), n - 1;
      SameRoles(ws, rs, i);
      RolesFit(ws, i);
      assert RoleFits(ws, rs, i);
      if i > 0 { assert rs[..i][i - 1] == rs[i - 1] && qs[..i][i - 1] == qs[i - 1]; }
      assert rs[..n] == rs[..i] + [rs[i]] && qs[..n] == qs[..i] + [qs[i]];
    }
  }

  /** A word is taken out exactly when it is a CHARSET= word, no remote command has begun, and it is no flag's value. */
  lemma KeywordIff(ws: seq<Word>, i: nat)
    requires i < |ws|
    ensures Roles(Before, ws)[i] == Keyword <==> IsKeyword(ws[i]) && !HasCommand(ws[..i]) && !ExpectsValue(ws[..i])
  {
    RoleAt(Before, ws, i);
    ScanMeans(ws[..i]);
    if IsKeyword(ws[i]) {
      KeywordIsPlain(ws[i]);
    }
    hide Roles, HasCommand, ExpectsValue, IsKeyword;
  }

  /** The words with a role other than Keyword, in order. */
  function Select(ws: seq<Word>, rs: seq<Role>): (ks: seq<Word>)
    requires |ws| == |rs|
  {
    if ws == [] then [] else (if rs[0] == Keyword then [] else [ws[0]]) + Select(ws[1..], rs[1..])
  }

  lemma {:induction false} KeptIsSelected(s: Scan, ws: seq<Word>)
    ensures Kept(s, ws) == Select(ws, Roles(s, ws))
    decreases |ws|
  {
    if ws != [] {
      hide RoleOf, Next;
      KeptIsSelected(Next(s, ws[0]), ws[1..]);
      assert Roles(s, ws)[1..] == Roles(Next(s, ws[0]), ws[1..]);
    }
  }

  /** From its first word on the remote command is kept word for word. */
  lemma CommandKept(ws: seq<Word>, i: nat)
    requires i < |ws| && Roles(Before, ws)[i] == Command
    ensures Kept(Before, ws) == Kept(Before, ws[..i]) + ws[i..]
  {
    hide Kept, Roles, RoleOf, ScanAt;
    var s := ScanAt(Before, ws[..i]);
    assert ws == ws[..i] + ws[i..];
    Split(Before, ws[..i], ws[i..]);
    RoleAt(Before, ws, i);
    FromCommandOn(s, ws[i..]);
  }

  lemma FromCommandOn(s: Scan, ws: seq<Word>)
    requires ws != [] && RoleOf(s, ws[0]) == Command
    ensures Kept(s, ws) == ws
  {
    KeptFirst(s, ws);
    CommandStays(ws[1..]);
    hide Kept, Roles;
    assert ws == [ws[0]] + ws[1..];
  }

  /** A second pass takes nothing out and names nothing. */
  lemma {:induction false} Idempotent(s: Scan, ws: seq<Word>, name: Option<Word>)
    ensures Kept(s, Kept(s, ws)) == Kept(s, ws) && Named(s, Kept(s, ws), name) == name
    decreases |ws|
  {
    if ws != [] {
      var t, rest := Next(s, ws[0]), Kept(Next(s, ws[0]), ws[1..]);
      Idempotent(t, ws[1..], name);
      if RoleOf(s, ws[0]) == Keyword {
        assert t == s;
        assert Kept(s, ws) == rest;
      } else {
        hide RoleOf, Next;
        assert Kept(s, ws) == [ws[0]] + rest;
        assert ([ws[0]] + rest)[1..] == rest;
      }
    }
  }

  /** None of the words taken out has a value. */
  ghost predicate Silent(s: Scan, ws: seq<Word>) {
    forall i :: 0 <= i < |ws| && Roles(s, ws)[i] == Keyword ==> |ws[i]| <= 8
  }

  lemma {:induction false} SilentNames(s: Scan, ws: seq<Word>, name: Option<Word>)
    requires Silent(s, ws)
    ensures Named(s, ws, name) == name
    decreases |ws|
  {
    if ws != [] {
      hide RoleOf, Next;
      var rs, rest := Roles(s, ws), ws[1..];
      assert rs[0] == RoleOf(s, ws[0]) && rs[1..] == Roles(Next(s, ws[0]), rest);
      assert forall i :: 0 <= i < |rest| ==> rest[i] == ws[i + 1] && rs[1..][i] == rs[i + 1];
      SilentNames(Next(s, ws[0]), rest, name);
    }
  }

  lemma {:induction false} NamedSplit(s: Scan, a: seq<Word>, b: seq<Word>, name: Option<Word>)
    ensures Named(s, a + b, name) == Named(ScanAt(s, a), b, Named(s, a, name))
    decreases |a|
  {
    if a == [] {
      assert a + b == b;
    } else {
      hide RoleOf, Next;
      assert (a + b)[1..] == a[1..] + b;
      NamedSplit(Next(s, a[0]), a[1..], b, if RoleOf(s, a[0]) == Keyword && |a[0]| > 8 then Some(a[0][8..]) else name);
    }
  }

  /** The name is the last non-empty one among the words taken out. */
  lemma NamedIsLast(ws: seq<Word>, i: nat, name: Option<Word>)
    requires i < |ws| && Roles(Before, ws)[i] == Keyword && |ws[i]| > 8
    requires Silent(ScanAt(Before, ws[..i + 1]), ws[i + 1..])
    ensures Named(Before, ws, name) == Some(ws[i][8..])
  {
    RoleAt(Before, ws, i);
    hide RoleOf, Next, Silent, Roles, ScanAt;
    var init, s := ws[..i], ScanAt(Before, ws[..i]);
    assert ws[..i + 1] == init + [ws[i]] && ws == ws[..i + 1] + ws[i + 1..];
    var one: seq<Word> := [ws[i]];
    assert one[1..] == [];
    NamedSplit(Before, init, one, name);
    NamedSplit(Before, ws[..i + 1], ws[i + 1..], name);
    SilentNames(ScanAt(Before, ws[..i + 1]), ws[i + 1..], Some(ws[i][8..]));
  }
}
