/**
  The wildcard matcher of clients/dropbear/amiga_scp.c, the check on what names a remote server
  may answer a wildcard request with, proved against the language a pattern denotes.
 */
module Glob {
  import opened Words

  const STAR: CByte := 0x2A
  const QUESTION: CByte := 0x3F
  const OPEN: CByte := 0x5B
  const CLOSE: CByte := 0x5D
  const BACKSLASH: CByte := 0x5C
  const DASH: CByte := 0x2D
  const BANG: CByte := 0x21
  const CARET: CByte := 0x5E

  // ---------------------------------------------------------------- patterns and their languages

  datatype Range = Range(first: CByte, last: CByte)

  /** One piece of a pattern.  Never is a class without its closing bracket. */
  datatype Item = Star | Any | Literal(b: CByte) | Class(negate: bool, ranges: seq<Range>) | Never

  predicate InRanges(rs: seq<Range>, b: CByte) {
    exists i :: 0 <= i < |rs| && rs[i].first <= b <= rs[i].last
  }

  /** The strings a piece stands for. */
  predicate Denotes(it: Item, s: seq<CByte>) {
    match it
    case Star => true
    case Any => |s| == 1
    case Literal(b) => s == [b]
    case Class(negate, rs) => |s| == 1 && InRanges(rs, s[0]) != negate
    case Never => false
  }

  function Concat(segs: seq<seq<CByte>>): (s: seq<CByte>) {
    if segs == [] then [] else segs[0] + Concat(segs[1..])
  }

  /** `segs` cuts a string into one part per piece, each part in that piece's language. */
  ghost predicate Fits(items: seq<Item>, segs: seq<seq<CByte>>) {
    |segs| == |items| && forall i :: 0 <= i < |items| ==> Denotes(items[i], segs[i])
  }

  /** The language of a pattern: the concatenation of its pieces' languages. */
  ghost predicate InLanguage(items: seq<Item>, name: seq<CByte>) {
    exists segs :: Fits(items, segs) && Concat(segs) == name
  }

  // ---------------------------------------------------------------- reading a pattern

  /** One end of a range: a byte, or an escaped byte. */
  function Endpoint(p: seq<CByte>, i: nat): (r: (CByte, nat))
    requires i < |p|
    ensures i < r.1 <= |p|
  {
    if p[i] == BACKSLASH && i + 1 < |p| then (p[i + 1], i + 2) else (p[i], i + 1)
  }

  /** One member of a class: a byte or first-last. */
  function Member(p: seq<CByte>, i: nat): (r: (Range, nat))
    requires i < |p|
    ensures i < r.1 <= |p|
  {
    var (first, j) := Endpoint(p, i);
    if At(p, j) == DASH && At(p, j + 1) != 0 && At(p, j + 1) != CLOSE
    then var (last, k) := Endpoint(p, j + 1); (Range(first, last), k)
    else (Range(first, first), j)
  }

  /** The members up to the closing bracket, and the index after it; None without one. */
  function Members(p: seq<CByte>, i: nat): (r: Option<(seq<Range>, nat)>)
    requires i <= |p|
    ensures r.Some? ==> i < r.value.1 <= |p|
    decreases |p| - i
  {
    if i == |p| then None
    else if p[i] == CLOSE then Some(([], i + 1))
    else
      var (m, j) := Member(p, i);
      var rest := Members(p, j);
      if rest.None? then None else Some(([m] + rest.value.0, rest.value.1))
  }

  predicate Negates(p: seq<CByte>) { At(p, 0) == BANG || At(p, 0) == CARET }

  /** A class from just after its bracket: a leading ] is a member. */
  function ReadClass(p: seq<CByte>): (r: (Item, nat))
    ensures r.1 <= |p|
  {
    var i := if Negates(p) then 1 else 0;
    var lead := At(p, i) == CLOSE;
    var ms := Members(p, if lead then i + 1 else i);
    if ms.None? then (Never, |p|)
    else (Class(Negates(p), (if lead then [Range(CLOSE, CLOSE)] else []) + ms.value.0), ms.value.1)
  }

  /** The first piece of a pattern and how much of it that takes. */
  function FirstItem(p: seq<CByte>): (r: (Item, nat))
    requires p != []
    ensures 0 < r.1 <= |p|
  {
    if p[0] == STAR then (Star, 1)
    else if p[0] == QUESTION then (Any, 1)
    else if p[0] == OPEN then var (it, n) := ReadClass(p[1..]); (it, 1 + n)
    else if p[0] == BACKSLASH && |p| > 1 then (Literal(p[1]), 2)
    else (Literal(p[0]), 1)
  }

  function Parse(p: seq<CByte>): (items: seq<Item>)
    decreases |p|
  {
    if p == [] then [] else var (it, n) := FirstItem(p); [it] + Parse(p[n..])
  }

  // ---------------------------------------------------------------- matching piece by piece

  predicate Matches(items: seq<Item>, name: seq<CByte>)
    decreases |items|
  {
    if items == [] then name == []
    else if items[0].Star? then exists k :: 0 <= k <= |name| && Matches(items[1..], name[k..])
    else name != [] && Denotes(items[0], name[..1]) && Matches(items[1..], name[1..])
  }

  lemma {:induction false} MatchesSound(items: seq<Item>, name: seq<CByte>) returns (segs: seq<seq<CByte>>)
    requires Matches(items, name)
    ensures Fits(items, segs) && Concat(segs) == name
    decreases |items|
  {
    if items == [] {
      segs := [];
    } else {
      var k := 1;
      if items[0].Star? {
        k :| 0 <= k <= |name| && Matches(items[1..], name[k..]);
      }
      var rest := MatchesSound(items[1..], name[k..]);
      segs := [name[..k]] + rest;
      assert segs[1..] == rest;
      assert name == name[..k] + name[k..];
    }
  }

  lemma {:induction false} MatchesComplete(items: seq<Item>, segs: seq<seq<CByte>>)
    requires Fits(items, segs)
    ensures Matches(items, Concat(segs))
    decreases |items|
  {
    if items != [] {
      var name, k := Concat(segs), |segs[0]|;
      MatchesComplete(items[1..], segs[1..]);
      assert name[k..] == Concat(segs[1..]) && name[..k] == segs[0];
      assert Denotes(items[0], segs[0]);
    }
  }

  /** Piece-by-piece matching decides the language. */
  lemma MatchesIffInLanguage(items: seq<Item>, name: seq<CByte>)
    ensures Matches(items, name) <==> InLanguage(items, name)
  {
    if Matches(items, name) {
      var segs := MatchesSound(items, name);
    }
    if InLanguage(items, name) {
      var segs :| Fits(items, segs) && Concat(segs) == name;
      MatchesComplete(items, segs);
    }
  }

  /** Two stars in a row are one star. */
  lemma {:induction false} StarStar(items: seq<Item>, name: seq<CByte>)
    ensures Matches([Star, Star] + items, name) <==> Matches([Star] + items, name)
  {
    var one, two := [Star] + items, [Star, Star] + items;
    assert two[1..] == one && one[1..] == items;
    if Matches(two, name) {
      var k :| 0 <= k <= |name| && Matches(one, name[k..]);
      var j :| 0 <= j <= |name[k..]| && Matches(items, name[k..][j..]);
      assert name[k..][j..] == name[k + j..];
    }
    if Matches(one, name) {
      assert name[0..] == name;
    }
  }

  // ---------------------------------------------------------------- the C code

  /** Going through the members with a flag. */
  function Tally(p: seq<CByte>, i: nat, value: CByte, matched: bool): (r: Option<(bool, nat)>)
    requires i <= |p|
    decreases |p| - i
  {
    if i == |p| then None
    else if p[i] == CLOSE then Some((matched, i + 1))
    else
      var (m, j) := Member(p, i);
      Tally(p, j, value, matched || m.first <= value <= m.last)
  }

  lemma {:induction false} TallyIsMembers(p: seq<CByte>, i: nat, value: CByte, matched: bool)
    requires i <= |p|
    ensures Tally(p, i, value, matched).None? <==> Members(p, i).None?
    ensures Members(p, i).Some? ==>
      Tally(p, i, value, matched) == Some((matched || InRanges(Members(p, i).value.0, value), Members(p, i).value.1))
    decreases |p| - i
  {
    if i < |p| && p[i] != CLOSE {
      var (m, j) := Member(p, i);
      TallyIsMembers(p, j, value, matched || m.first <= value <= m.last);
      if Members(p, j).Some? { InRangesCons(m, Members(p, j).value.0, value); }
    }
  }

  lemma InRangesCons(r: Range, rs: seq<Range>, b: CByte)
    ensures InRanges([r] + rs, b) <==> r.first <= b <= r.last || InRanges(rs, b)
  {
    assert ([r] + rs)[0] == r;
    if InRanges(rs, b) {
      var i :| 0 <= i < |rs| && rs[i].first <= b <= rs[i].last;
      assert ([r] + rs)[i + 1] == rs[i];
    }
  }

  /** One turn of the loop: the next member, escapes and dashes read as they come. */
  method NextMember(p: seq<CByte>, at: nat) returns (first: CByte, last: CByte, i: nat)
    requires at < |p|
    ensures at < i <= |p| && Member(p, at) == (Range(first, last), i)
  {
    i := at;
    first := p[i];
    i := i + 1;
    if first == BACKSLASH && At(p, i) != 0 {
      first := p[i];
      i := i + 1;
    }
    last := first;
    if At(p, i) == DASH && At(p, i + 1) != 0 && At(p, i + 1) != CLOSE {
      i := i + 1;
      last := p[i];
      i := i + 1;
      if last == BACKSLASH && At(p, i) != 0 {
        last := p[i];
        i := i + 1;
      }
    }
  }

  /** scp_class_match: -1 without a closing bracket, else whether `value` is in the class, and where it ends. */
  method ClassMatch(p: seq<CByte>, value: CByte) returns (r: int, next: nat)
    ensures ReadClass(p).0.Never? ==> r == -1
    ensures !ReadClass(p).0.Never? ==> next == ReadClass(p).1 && r == if Denotes(ReadClass(p).0, [value]) then 1 else 0
  {
    var i := 0;
    var negate := false;
    var matched := false;
    if At(p, i) == BANG || At(p, i) == CARET {
      negate := true;
      i := i + 1;
    }
    ghost var lead := At(p, i) == CLOSE;
    if At(p, i) == CLOSE {
      matched := value == CLOSE;
      i := i + 1;
    }
    ghost var start, matched0 := i, matched;
    while At(p, i) != 0 && At(p, i) != CLOSE
      invariant i <= |p|
      invariant Tally(p, i, value, matched) == Tally(p, start, value, matched0)
      decreases |p| - i
    {
      var first, last, next := NextMember(p, i);
      if first <= value <= last {
        matched := true;
      }
      i := next;
    }
    TallyIsMembers(p, start, value, matched0);
    ClassVerdict(p, value);
    if At(p, i) != CLOSE {
      return -1, 0;
    }
    next := i + 1;
    r := if matched != negate then 1 else 0;
  }

  /** What a class says of a byte, in terms of its members and its leading bracket. */
  lemma ClassVerdict(p: seq<CByte>, value: CByte)
    ensures var i := if Negates(p) then 1 else 0;
            var lead := At(p, i) == CLOSE;
            var start := if lead then i + 1 else i;
            && start <= |p|
            && (ReadClass(p).0.Never? <==> Members(p, start).None?)
            && (Members(p, start).Some? ==>
                  && ReadClass(p).1 == Members(p, start).value.1
                  && (Denotes(ReadClass(p).0, [value]) <==>
                        ((lead && value == CLOSE) || InRanges(Members(p, start).value.0, value)) != Negates(p)))
  {
    var i := if Negates(p) then 1 else 0;
    var lead := At(p, i) == CLOSE;
    var ms := Members(p, if lead then i + 1 else i);
    if ms.Some? {
      InRangesCons(Range(CLOSE, CLOSE), ms.value.0, value);
      assert [] + ms.value.0 == ms.value.0;
    }
  }

  /** scp_fnmatch: true exactly for the names in the pattern's language. */
  method Fnmatch(pattern: seq<CByte>, name: seq<CByte>) returns (r: bool)
    ensures r <==> InLanguage(Parse(pattern), name)
    decreases |pattern|
  {
    MatchesIffInLanguage(Parse(pattern), name);
    r := Search(pattern, name);
  }

  method Search(pattern: seq<CByte>, name: seq<CByte>) returns (r: bool)
    ensures r <==> Matches(Parse(pattern), name)
    decreases |pattern|, 1
  {
    hide Parse, Matches, InRanges;
    var p, n := 0, 0;
    assert pattern[0..] == pattern && name[0..] == name;
    while p < |pattern|
      invariant p <= |pattern| && n <= |name|
      invariant Matches(Parse(pattern), name) <==> Matches(Parse(pattern[p..]), name[n..])
      decreases |pattern| - p
    {
      ghost var rest, tail := pattern[p..], name[n..];
      var token := pattern[p];
      p := p + 1;
      assert rest[1..] == pattern[p..];
      ParseStep(rest);
      if token == STAR {
        r := AfterStar(pattern[p..], name[n..]);
        return;
      }
      if n == |name| {
        NeedsAByte(rest);
        return false;
      }
      MatchOne(FirstItem(rest).0, Parse(rest[FirstItem(rest).1..]), tail);
      assert tail[1..] == name[n + 1..] && tail[..1] == [name[n]];
      if token == QUESTION {
        n := n + 1;
      } else if token == OPEN {
        var yes, len := ClassMatch(pattern[p..], name[n]);
        if yes <= 0 { return false; }
        assert rest[1 + len..] == pattern[p + len..];
        p, n := p + len, n + 1;
      } else {
        if token == BACKSLASH && p < |pattern| {
          token := pattern[p];
          p := p + 1;
          assert rest[2..] == pattern[p..];
        }
        if token != name[n] { return false; }
        n := n + 1;
      }
    }
    EmptyPattern(name[n..]);
    assert pattern[p..] == [];
    r := n == |name|;
  }

  lemma EmptyPattern(name: seq<CByte>)
    ensures Matches(Parse([]), name) <==> name == []
  {
  }

  lemma ParseStep(p: seq<CByte>)
    requires p != []
    ensures Parse(p) == [FirstItem(p).0] + Parse(p[FirstItem(p).1..])
  {
  }

  /** A piece that is not a star takes exactly one byte. */
  lemma {:induction false} MatchOne(it: Item, items: seq<Item>, name: seq<CByte>)
    requires !it.Star? && name != []
    ensures Matches([it] + items, name) <==> Denotes(it, name[..1]) && Matches(items, name[1..])
  {
    assert ([it] + items)[1..] == items;
  }

  /** The star case: skip further stars, then try every suffix of the name. */
  method AfterStar(pattern: seq<CByte>, name: seq<CByte>) returns (r: bool)
    ensures r <==> Matches([Star] + Parse(pattern), name)
    decreases |pattern|, 2
  {
    hide Parse, Matches;
    var p := 0;
    assert pattern[0..] == pattern;
    while p < |pattern| && pattern[p] == STAR
      invariant p <= |pattern|
      invariant Matches([Star] + Parse(pattern), name) <==> Matches([Star] + Parse(pattern[p..]), name)
    {
      SkipStar(pattern[p..], name);
      assert pattern[p..][1..] == pattern[p + 1..];
      p := p + 1;
    }
    ghost var items := Parse(pattern[p..]);
    StarTries(items, name);
    if p == |pattern| {
      EmptyPattern(name[|name|..]);
      return true;
    }
    var n := 0;
    while n <= |name|
      invariant n <= |name| + 1
      invariant forall k :: 0 <= k < n ==> !Matches(items, name[k..])
    {
      var found := Search(pattern[p..], name[n..]);
      if found { return true; }
      n := n + 1;
    }
    r := false;
  }

  lemma {:induction false} StarTries(items: seq<Item>, name: seq<CByte>)
    ensures Matches([Star] + items, name) <==> exists k :: 0 <= k <= |name| && Matches(items, name[k..])
  {
    assert ([Star] + items)[1..] == items;
  }

  lemma SkipStar(p: seq<CByte>, name: seq<CByte>)
    requires p != [] && p[0] == STAR
    ensures Matches([Star] + Parse(p), name) <==> Matches([Star] + Parse(p[1..]), name)
  {
    hide Matches, Parse;
    ParseStep(p);
    StarStar(Parse(p[1..]), name);
    assert [Star] + Parse(p) == [Star, Star] + Parse(p[1..]);
  }

  /** Any pattern that does not start with a star needs at least one byte. */
  lemma NeedsAByte(p: seq<CByte>)
    requires p != [] && p[0] != STAR
    ensures !Matches(Parse(p), [])
  {
    ParseStep(p);
    assert !FirstItem(p).0.Star?;
    hide Parse, FirstItem;
    NeedsOne(FirstItem(p).0, Parse(p[FirstItem(p).1..]));
  }

  // ---------------------------------------------------------------- how a pattern is written

  /** A byte as itself or behind a backslash. */
  datatype Sign = Plain(b: CByte) | Escaped(b: CByte)

  /** A member of a class: one byte, or a span x-y. */
  datatype Element = One(e: Sign) | Span(e: Sign, f: Sign)

  /** What can be written in a pattern; a class may begin with ! or ^, and then with a ] that does not close it. */
  datatype Piece = Asterisk | QuestionMark | Byte(s: Sign) | Bracket(not: Option<CByte>, lead: bool, els: seq<Element>)

  function SignText(s: Sign): (t: seq<CByte>) { if s.Plain? then [s.b] else [0x5C, s.b] }

  function ElementText(el: Element): (t: seq<CByte>) {
    match el case One(e) => SignText(e) case Span(e, f) => SignText(e) + [0x2D] + SignText(f)
  }

  function ElementsText(els: seq<Element>): (t: seq<CByte>) {
    if els == [] then [] else ElementText(els[0]) + ElementsText(els[1..])
  }

  function PieceText(p: Piece): (t: seq<CByte>)
    ensures t != []
  {
    match p
    case Asterisk => [0x2A]
    case QuestionMark => [0x3F]
    case Byte(s) => SignText(s)
    case Bracket(not, lead, els) =>
      [0x5B] + (if not.Some? then [not.value] else []) + (if lead then [0x5D] else []) + ElementsText(els) + [0x5D]
  }

  /** Written plainly, neither end of a member is a backslash or the closing bracket. */
  predicate ElementOk(el: Element) {
    && (el.e.Plain? ==> el.e.b != 0x5C && el.e.b != 0x5D)
    && (el.Span? && el.f.Plain? ==> el.f.b != 0x5C && el.f.b != 0x5D)
  }

  /** A plain dash behind a single byte stands for itself only at the end of the class. */
  predicate ElementsOk(els: seq<Element>) {
    && (forall i :: 0 <= i < |els| ==> ElementOk(els[i]))
    && (forall i, j :: 0 <= i < |els| - 1 && j == i + 1 && els[i].One? && els[j].e == Plain(0x2D) ==>
          j == |els| - 1 && els[j].One?)
  }

  predicate PieceOk(p: Piece) {
    match p
    case Asterisk => true
    case QuestionMark => true
    case Byte(s) => s.Plain? ==> s.b !in {0x2A, 0x3F, 0x5B, 0x5C}
    case Bracket(not, lead, els) =>
      && ElementsOk(els) && (lead || els != [])
      && (not.Some? ==> not.value == 0x21 || not.value == 0x5E)
      && (not.None? && !lead ==> els[0].e != Plain(0x21) && els[0].e != Plain(0x5E))
  }

  function Last(el: Element): (b: CByte) { if el.One? then el.e.b else el.f.b }

  /** The bytes a piece other than the asterisk stands for. */
  predicate Admits(p: Piece, b: CByte) {
    match p
    case Asterisk => false
    case QuestionMark => true
    case Byte(s) => b == s.b
    case Bracket(not, lead, els) =>
      ((lead && b == 0x5D) || exists i :: 0 <= i < |els| && els[i].e.b <= b <= Last(els[i])) != not.Some?
  }

  lemma {:induction false} SignRead(pre: seq<CByte>, s: Sign, tail: seq<CByte>)
    requires s.Plain? ==> s.b != 0x5C
    ensures Endpoint(pre + (SignText(s) + tail), |pre|) == (s.b, |pre| + |SignText(s)|)
  {
  }

  lemma {:induction false} Elsewhere(pre: seq<CByte>, a: seq<CByte>, tail: seq<CByte>)
    ensures pre + (a + tail) == (pre + a) + tail
    ensures a != [] ==> (pre + (a + tail))[|pre|] == a[0]
    ensures tail != [] ==> (pre + (a + tail))[|pre| + |a|] == tail[0]
    ensures |tail| > 1 ==> (pre + (a + tail))[|pre| + |a| + 1] == tail[1]
  {
  }

  lemma {:induction false} OneRead(pre: seq<CByte>, e: Sign, tail: seq<CByte>)
    requires (e.Plain? ==> e.b != 0x5C) && tail != [] && (tail[0] == 0x2D ==> |tail| > 1 && tail[1] == 0x5D)
    ensures Member(pre + (SignText(e) + tail), |pre|) == (Range(e.b, e.b), |pre| + |SignText(e)|)
  {
    SignRead(pre, e, tail);
    Elsewhere(pre, SignText(e), tail);
    hide SignText, Endpoint;
  }

  lemma {:induction false} SpanRead(pre: seq<CByte>, e: Sign, f: Sign, tail: seq<CByte>)
    requires ElementOk(Span(e, f)) && tail != []
    ensures Member(pre + (SignText(e) + ([0x2D] + (SignText(f) + tail))), |pre|) ==
            (Range(e.b, f.b), |pre| + |SignText(e)| + 1 + |SignText(f)|)
  {
    var front, rest := SignText(e), SignText(f) + tail;
    var p, pre2 := pre + (front + ([0x2D] + rest)), pre + front + [0x2D];
    assert rest[0] != 0x5D;
    SignRead(pre, e, [0x2D] + rest);
    SignRead(pre2, f, tail);
    hide SignText, Endpoint;
    assert p == pre2 + rest;
    Elsewhere(pre, front, [0x2D] + rest);
  }

  lemma {:induction false} ElementRead(pre: seq<CByte>, el: Element, tail: seq<CByte>)
    requires ElementOk(el) && tail != []
    requires el.One? && tail[0] == 0x2D ==> |tail| > 1 && tail[1] == 0x5D
    ensures Member(pre + (ElementText(el) + tail), |pre|) == (Range(el.e.b, Last(el)), |pre| + |ElementText(el)|)
  {
    match el
    case One(e) => OneRead(pre, e, tail);
    case Span(e, f) =>
      SpanRead(pre, e, f, tail);
      assert ElementText(el) + tail == SignText(e) + ([0x2D] + (SignText(f) + tail));
      hide SignText, Member;
  }

  function RangesOf(els: seq<Element>): (rs: seq<Range>) {
    if els == [] then [] else [Range(els[0].e.b, Last(els[0]))] + RangesOf(els[1..])
  }

  lemma {:induction false} RestOk(els: seq<Element>)
    requires ElementsOk(els) && els != []
    ensures ElementsOk(els[1..])
  {
    var r := els[1..];
    forall i, j | 0 <= i < |r| - 1 && j == i + 1 && r[i].One? && r[j].e == Plain(0x2D)
      ensures j == |r| - 1 && r[j].One?
    {
      assert els[i + 1] == r[i] && els[j + 1] == r[j];
    }
  }

  /** The members of a class, its end, and what follows. */
  function Body(els: seq<Element>, rest: seq<CByte>): (t: seq<CByte>) { ElementsText(els) + ([0x5D] + rest) }

  ghost predicate ReadsAt(p: seq<CByte>, at: nat, els: seq<Element>) {
    at <= |p| && Members(p, at).Some? && Members(p, at).value.0 == RangesOf(els)
    && Members(p, at).value.1 == at + |ElementsText(els)| + 1
  }

  lemma {:induction false} ElementsRead(pre: seq<CByte>, els: seq<Element>, rest: seq<CByte>)
    requires ElementsOk(els)
    ensures ReadsAt(pre + Body(els, rest), |pre|, els)
    decreases |els|
  {
    if els == [] {
      NoElements(pre, rest);
    } else {
      RestOk(els);
      var t := ElementText(els[0]);
      ElementsRead(pre + t, els[1..], rest);
      hide *;
      SamePlace(pre, els, rest);
      FirstElement(pre + Body(els, rest), pre, els, rest);
    }
  }

  lemma {:induction false} NoElements(pre: seq<CByte>, rest: seq<CByte>)
    ensures ReadsAt(pre + Body([], rest), |pre|, [])
  {
    assert (pre + Body([], rest))[|pre|] == 0x5D;
  }

  /** The first member is read, and the others from where it ends. */
  lemma {:induction false} FirstElement(p: seq<CByte>, pre: seq<CByte>, els: seq<Element>, rest: seq<CByte>)
    requires ElementsOk(els) && els != [] && p == pre + Body(els, rest)
    requires ReadsAt(p, |pre| + |ElementText(els[0])|, els[1..])
    ensures ReadsAt(p, |pre|, els)
  {
    assert ElementOk(els[0]);
    BodyFirst(els, rest);
    DashBehind(els, rest);
    hide *;
    FrontAt(pre, ElementText(els[0]), Body(els[1..], rest));
    ElementRead(pre, els[0], Body(els[1..], rest));
    OneThenRest(p, |pre|, els, |ElementText(els[0])|);
  }

  lemma {:induction false} SamePlace(pre: seq<CByte>, els: seq<Element>, rest: seq<CByte>)
    requires ElementsOk(els) && els != []
    ensures var t := ElementText(els[0]);
      pre + Body(els, rest) == (pre + t) + Body(els[1..], rest) && |pre + t| == |pre| + |t|
  {
    BodyFirst(els, rest);
    hide *;
    Regroup3(pre, ElementText(els[0]), Body(els[1..], rest));
  }

  lemma {:induction false} FrontAt(pre: seq<CByte>, t: seq<CByte>, tail: seq<CByte>)
    requires t != []
    ensures |pre| < |pre + (t + tail)| && (pre + (t + tail))[|pre|] == t[0]
  {
  }

  lemma {:induction false} OneThenRest(p: seq<CByte>, at: nat, els: seq<Element>, n: nat)
    requires els != [] && at < |p| && p[at] != 0x5D
    requires Member(p, at) == (Range(els[0].e.b, Last(els[0])), at + n) && ReadsAt(p, at + n, els[1..])
    requires |ElementsText(els)| == n + |ElementsText(els[1..])|
    ensures ReadsAt(p, at, els)
  {
    hide Member, Members, ElementsText, RangesOf, Last;
    MembersFirst(p, at);
    RangesFirst(els);
  }

  lemma {:induction false} RangesFirst(els: seq<Element>)
    requires els != []
    ensures RangesOf(els) == [Range(els[0].e.b, Last(els[0]))] + RangesOf(els[1..])
  {
  }

  lemma {:induction false} BodyFirst(els: seq<Element>, rest: seq<CByte>)
    requires ElementsOk(els) && els != []
    ensures var t := ElementText(els[0]);
      && t != [] && t[0] != 0x5D && Body(els, rest) == t + Body(els[1..], rest) && Body(els[1..], rest) != []
      && |ElementsText(els)| == |t| + |ElementsText(els[1..])|
  {
    assert ElementOk(els[0]);
  }

  lemma {:induction false} MembersFirst(p: seq<CByte>, i: nat)
    requires i < |p| && p[i] != CLOSE
    ensures var rest := Members(p, Member(p, i).1);
      rest.Some? ==>
        && Members(p, i).Some? && Members(p, i).value.0 == [Member(p, i).0] + rest.value.0
        && Members(p, i).value.1 == rest.value.1
  {
    hide Member;
  }

  lemma {:induction false} DashBehind(els: seq<Element>, rest: seq<CByte>)
    requires ElementsOk(els) && els != []
    ensures var tail := Body(els[1..], rest);
      tail != [] && (els[0].One? && tail[0] == 0x2D ==> |tail| > 1 && tail[1] == 0x5D)
  {
    var r := els[1..];
    if r != [] {
      assert ElementsText(r) == ElementText(r[0]) + ElementsText(r[1..]);
      assert r[0] == els[1];
      if r[0].e == Plain(0x2D) && els[0].One? {
        assert r[1..] == [];
      }
    }
  }

  lemma {:induction false} RangesMean(els: seq<Element>, b: CByte)
    ensures InRanges(RangesOf(els), b) <==> exists i :: 0 <= i < |els| && els[i].e.b <= b <= Last(els[i])
  {
    if els != [] {
      RangesMean(els[1..], b);
      InRangesCons(Range(els[0].e.b, Last(els[0])), RangesOf(els[1..]), b);
      assert forall i :: 1 <= i < |els| ==> els[i] == els[1..][i - 1];
      assert forall i :: 0 <= i < |els| - 1 ==> els[i + 1] == els[1..][i];
    }
  }

  function ClassFront(p: Piece): (pre: seq<CByte>)
    requires p.Bracket?
  {
    (if p.not.Some? then [p.not.value] else []) + (if p.lead then [0x5D] else [])
  }

  lemma {:induction false} FrontRead(p: Piece, body: seq<CByte>)
    requires PieceOk(p) && p.Bracket? && body != []
    requires if p.els == [] then body[0] == 0x5D else body[0] == ElementText(p.els[0])[0]
    ensures var q := ClassFront(p) + body;
      var i := if Negates(q) then 1 else 0;
      && (Negates(q) <==> p.not.Some?) && (At(q, i) == 0x5D <==> p.lead)
      && |ClassFront(p)| == i + if p.lead then 1 else 0
  {
    var q := ClassFront(p) + body;
    if p.els != [] {
      assert ElementOk(p.els[0]);
      assert ElementText(p.els[0])[0] == if p.els[0].e.Plain? then p.els[0].e.b else 0x5C;
    }
  }

  lemma {:induction false} BodyStarts(els: seq<Element>, rest: seq<CByte>)
    ensures var body := Body(els, rest);
      body != [] && if els == [] then body[0] == 0x5D else body[0] == ElementText(els[0])[0]
  {
  }

  lemma {:induction false} BracketRead(p: Piece, rest: seq<CByte>)
    requires PieceOk(p) && p.Bracket?
    ensures ReadClass(PieceText(p)[1..] + rest) == (Meaning(p), |PieceText(p)| - 1)
  {
    BracketText(p, rest);
    BodyStarts(p.els, rest);
    var pre, body := ClassFront(p), Body(p.els, rest);
    FrontRead(p, body);
    assert ElementsOk(p.els);
    ElementsRead(pre, p.els, rest);
    var q := pre + body;
    assert Members(q, |pre|).Some? && Members(q, |pre|).value.0 == RangesOf(p.els);
    assert Members(q, |pre|).value.1 == |pre| + |ElementsText(p.els)| + 1;
    hide *;
    FromMembers(p, q, |pre|);
  }

  lemma {:induction false} BracketText(p: Piece, rest: seq<CByte>)
    requires p.Bracket?
    ensures PieceText(p)[1..] + rest == ClassFront(p) + Body(p.els, rest)
    ensures |PieceText(p)| == |ClassFront(p)| + |ElementsText(p.els)| + 2
  {
    hide ElementsText;
    var a: seq<CByte> := if p.not.Some? then [p.not.value] else [];
    var b: seq<CByte> := if p.lead then [0x5D] else [];
    assert PieceText(p)[1..] == a + b + ElementsText(p.els) + [0x5D];
  }

  lemma {:induction false} FromMembers(p: Piece, q: seq<CByte>, from: nat)
    requires p.Bracket? && from <= |q| && Members(q, from).Some? && Members(q, from).value.0 == RangesOf(p.els)
    requires (Negates(q) <==> p.not.Some?)
    requires var i := if Negates(q) then 1 else 0; (At(q, i) == 0x5D <==> p.lead) && from == i + if p.lead then 1 else 0
    ensures ReadClass(q) == (Meaning(p), Members(q, from).value.1)
  {
    hide Members, RangesOf;
  }

  function Meaning(p: Piece): (it: Item) {
    match p
    case Asterisk => Star
    case QuestionMark => Any
    case Byte(s) => Literal(s.b)
    case Bracket(not, lead, els) =>
      Class(not.Some?, (if lead then [Range(0x5D, 0x5D)] else []) + RangesOf(els))
  }

  /** A piece is read back from its text, whatever follows. */
  lemma {:induction false} PieceRead(p: Piece, rest: seq<CByte>)
    requires PieceOk(p)
    ensures FirstItem(PieceText(p) + rest) == (Meaning(p), |PieceText(p)|)
    ensures Parse(PieceText(p) + rest) == [Meaning(p)] + Parse(rest)
  {
    var t := PieceText(p);
    if p.Bracket? {
      BracketRead(p, rest);
      assert t[0] == 0x5B && (t + rest)[1..] == t[1..] + rest;
      hide ReadClass, Meaning, PieceText;
    }
    assert FirstItem(t + rest) == (Meaning(p), |t|);
    hide FirstItem;
    assert (t + rest)[|t|..] == rest;
  }

  lemma {:induction false} MeaningAdmits(p: Piece, b: CByte)
    requires !p.Asterisk?
    ensures !Meaning(p).Star? && (Denotes(Meaning(p), [b]) <==> Admits(p, b))
  {
    if p.Bracket? {
      RangesMean(p.els, b);
      InRangesCons(Range(0x5D, 0x5D), RangesOf(p.els), b);
      assert [] + RangesOf(p.els) == RangesOf(p.els);
      hide RangesOf, InRanges;
    }
  }

  /** At the front of a pattern an asterisk lets anything through, any other piece one byte it admits. */
  lemma {:induction false} PieceMatches(p: Piece, rest: seq<CByte>, name: seq<CByte>)
    requires PieceOk(p)
    ensures p.Asterisk? ==>
      (InLanguage(Parse(PieceText(p) + rest), name) <==>
         exists k :: 0 <= k <= |name| && InLanguage(Parse(rest), name[k..]))
    ensures !p.Asterisk? ==>
      (InLanguage(Parse(PieceText(p) + rest), name) <==>
         name != [] && Admits(p, name[0]) && InLanguage(Parse(rest), name[1..]))
  {
    hide InLanguage, Parse, PieceText, Matches, Admits, Denotes;
    PieceRead(p, rest);
    MatchesIffInLanguage(Parse(PieceText(p) + rest), name);
    forall s ensures Matches(Parse(rest), s) <==> InLanguage(Parse(rest), s) { MatchesIffInLanguage(Parse(rest), s); }
    if p.Asterisk? {
      StarTries(Parse(rest), name);
    } else if name == [] {
      NeedsOne(Meaning(p), Parse(rest));
    } else {
      MeaningAdmits(p, name[0]);
      MatchOne(Meaning(p), Parse(rest), name);
      assert name[..1] == [name[0]];
    }
  }

  lemma {:induction false} NeedsOne(it: Item, items: seq<Item>)
    ensures !it.Star? ==> !Matches([it] + items, [])
  {
  }

  /** What may stand behind the pieces: nothing, a lone backslash, or a class without its end. */
  ghost predicate Ending(t: seq<CByte>) {
    t == [] || t == [0x5C] || (t[0] == 0x5B && ReadClass(t[1..]).0.Never?)
  }

  function AllText(ps: seq<Piece>): (t: seq<CByte>) { if ps == [] then [] else PieceText(ps[0]) + AllText(ps[1..]) }

  ghost predicate AllOk(ps: seq<Piece>) { forall i :: 0 <= i < |ps| ==> PieceOk(ps[i]) }

  /** An ending matches the empty name, a backslash, or nothing. */
  lemma {:induction false} EndingMatches(t: seq<CByte>, name: seq<CByte>)
    requires Ending(t)
    ensures InLanguage(Parse(t), name) <==> if t == [] then name == [] else t == [0x5C] && name == [0x5C]
  {
    MatchesIffInLanguage(Parse(t), name);
    EmptyPattern(name);
    if t != [] {
      ParseStep(t);
      assert FirstItem(t) == (if t == [0x5C] then (Literal(0x5C), 1) else (Never, |t|));
      hide Parse;
      assert t[|t|..] == [];
      if name == [] {
        NeedsOne(FirstItem(t).0, Parse([]));
      } else {
        MatchOne(FirstItem(t).0, Parse([]), name);
        EmptyPattern(name[1..]);
        assert name == [name[0]] + name[1..];
      }
    }
  }

  /** Without any ] a class has no end. */
  lemma {:induction false} Unclosed(p: seq<CByte>, i: nat)
    requires i <= |p| && forall j :: i <= j < |p| ==> p[j] != 0x5D
    ensures Members(p, i).None?
    decreases |p| - i
  {
    if i < |p| { Unclosed(p, Member(p, i).1); }
  }

  lemma {:induction false} UnclosedIsEnding(t: seq<CByte>)
    requires t != [] && t[0] == 0x5B && 0x5D !in t[1..]
    ensures Ending(t)
  {
    var p := t[1..];
    Unclosed(p, if Negates(p) then 1 else 0);
  }

  // ---------------------------------------------------------------- every pattern is written so

  /** The byte at a position, as it is written there. */
  function SignAt(p: seq<CByte>, i: nat): (s: Sign)
    requires i < |p|
  {
    if p[i] == 0x5C && i + 1 < |p| then Escaped(p[i + 1]) else Plain(p[i])
  }

  lemma {:induction false} SignWritten(p: seq<CByte>, i: nat)
    requires i < |p|
    ensures var n := i + |SignText(SignAt(p, i))|; n <= |p| && Endpoint(p, i) == (SignAt(p, i).b, n)
    ensures p[i..i + |SignText(SignAt(p, i))|] == SignText(SignAt(p, i))
    ensures i + |SignText(SignAt(p, i))| < |p| && SignAt(p, i).Plain? ==> p[i] != 0x5C
  {
  }

  /** A member of a class that has an end is the text of an element. */
  lemma {:induction false} ElementWritten(p: seq<CByte>, i: nat) returns (el: Element)
    requires i < |p| && p[i] != 0x5D && Member(p, i).1 < |p|
    ensures ElementOk(el) && el.e == SignAt(p, i) && p[i..Member(p, i).1] == ElementText(el)
    ensures el.One? && p[Member(p, i).1] == 0x2D && Member(p, i).1 + 1 < |p| ==> p[Member(p, i).1 + 1] == 0x5D
  {
    var e := SignAt(p, i);
    SignWritten(p, i);
    var j := i + |SignText(e)|;
    if At(p, j) == 0x2D && At(p, j + 1) != 0 && At(p, j + 1) != 0x5D {
      el := Span(e, SignAt(p, j + 1));
      SpanWritten(p, i, j);
    } else {
      el := One(e);
      assert Member(p, i).1 == j;
      hide Member, Endpoint, SignText;
    }
  }

  lemma {:induction false} SpanWritten(p: seq<CByte>, i: nat, j: nat)
    requires i < |p| && p[i] != 0x5D && Member(p, i).1 < |p| && j == i + |SignText(SignAt(p, i))|
    requires At(p, j) == 0x2D && At(p, j + 1) != 0 && At(p, j + 1) != 0x5D
    ensures var el := Span(SignAt(p, i), SignAt(p, j + 1));
      ElementOk(el) && p[i..Member(p, i).1] == ElementText(el)
  {
    SignWritten(p, i);
    SignWritten(p, j + 1);
    var n := j + 1 + |SignText(SignAt(p, j + 1))|;
    assert Member(p, i).1 == n;
    hide Member, Endpoint, SignText;
    Cut3(p, i, j, n);
  }

  lemma {:induction false} Cut3(p: seq<CByte>, i: nat, j: nat, n: nat)
    requires i <= j < n <= |p|
    ensures p[i..n] == p[i..j] + [p[j]] + p[j + 1..n]
  {
  }

  lemma {:induction false} Cut2(p: seq<CByte>, i: nat, j: nat, n: nat)
    requires i <= j <= n <= |p|
    ensures p[i..n] == p[i..j] + p[j..n]
  {
  }

  lemma {:induction false} MembersWritten(p: seq<CByte>, i: nat) returns (els: seq<Element>)
    requires i <= |p| && Members(p, i).Some?
    ensures ElementsOk(els) && p[i..Members(p, i).value.1] == ElementsText(els) + [0x5D]
    ensures i < |p| && (els == [] <==> p[i] == 0x5D) && (els != [] ==> els[0].e == SignAt(p, i))
    ensures i + 1 < |p| && p[i] == 0x2D && p[i + 1] == 0x5D ==> |els| == 1 && els[0].One?
    decreases |p| - i
  {
    if p[i] == 0x5D {
      els := [];
    } else {
      var j, n := Member(p, i).1, Members(p, i).value.1;
      assert i < j < |p| && Members(p, j).Some? && Members(p, j).value.1 == n && j < n;
      hide Member, ElementText, ElementsText, ElementsOk, Members, ElementOk;
      var el := ElementWritten(p, i);
      var rest := MembersWritten(p, j);
      els := [el] + rest;
      ConsOk(el, rest);
      ConsText(p, i, j, n, el, rest);
      if i + 1 < |p| && p[i] == 0x2D && p[i + 1] == 0x5D { LoneDash(p, i, el); }
    }
  }

  lemma {:induction false} ConsText(p: seq<CByte>, i: nat, j: nat, n: nat, el: Element, rest: seq<Element>)
    requires i <= j <= n <= |p| && p[i..j] == ElementText(el) && p[j..n] == ElementsText(rest) + [0x5D]
    ensures p[i..n] == ElementsText([el] + rest) + [0x5D]
  {
    hide ElementText;
    ElementsCons(el, rest);
    hide ElementsText;
    Cut2(p, i, j, n);
    Regroup3(ElementText(el), ElementsText(rest), [0x5D]);
  }

  lemma {:induction false} LoneDash(p: seq<CByte>, i: nat, el: Element)
    requires i + 1 < |p| && p[i] == 0x2D && p[i + 1] == 0x5D && p[i..Member(p, i).1] == ElementText(el)
    ensures Member(p, i).1 == i + 1 && el.One?
  {
  }

  lemma {:induction false} ElementsCons(el: Element, rest: seq<Element>)
    ensures ElementsText([el] + rest) == ElementText(el) + ElementsText(rest)
  {
    assert ([el] + rest)[1..] == rest;
  }

  lemma {:induction false} ConsOk(el: Element, rest: seq<Element>)
    requires ElementOk(el) && ElementsOk(rest)
    requires rest != [] && el.One? && rest[0].e == Plain(0x2D) ==> |rest| == 1 && rest[0].One?
    ensures ElementsOk([el] + rest)
  {
    hide ElementOk;
    var els := [el] + rest;
    forall i, j | 0 <= i < |els| - 1 && j == i + 1 && els[i].One? && els[j].e == Plain(0x2D)
      ensures j == |els| - 1 && els[j].One?
    {
      if i > 0 {
        var a, b := i - 1, j - 1;
        assert rest[a] == els[i] && rest[b] == els[j];
      }
    }
  }

  /** A class that has an end is the text of a piece. */
  lemma {:induction false} ClassWritten(q: seq<CByte>) returns (p: Piece)
    requires !ReadClass(q).0.Never?
    ensures p.Bracket? && PieceOk(p) && PieceText(p) == [0x5B] + q[..ReadClass(q).1]
  {
    var i := if Negates(q) then 1 else 0;
    var lead := At(q, i) == 0x5D;
    var from, n := (if lead then i + 1 else i), ReadClass(q).1;
    assert from <= |q| && Members(q, from).Some? && n == Members(q, from).value.1;
    hide Members, ReadClass, ElementsText, ElementsOk;
    var els := MembersWritten(q, from);
    p := Bracket(if Negates(q) then Some(q[0]) else None, lead, els);
    assert q[..from] == ClassFront(p);
    assert PieceOk(p);
    hide *;
    Cut2(q, 0, from, n);
    FrontAndBody(p, q[..from], q[from..n]);
  }

  lemma {:induction false} FrontAndBody(p: Piece, front: seq<CByte>, body: seq<CByte>)
    requires p.Bracket? && front == ClassFront(p) && body == ElementsText(p.els) + [0x5D]
    ensures PieceText(p) == [0x5B] + (front + body)
  {
    hide ElementsText;
    var a: seq<CByte> := if p.not.Some? then [p.not.value] else [];
    var b: seq<CByte> := if p.lead then [0x5D] else [];
    Regroup4([0x5B], a, b, ElementsText(p.els), [0x5D]);
  }

  lemma {:induction false} Regroup4(h: seq<CByte>, a: seq<CByte>, b: seq<CByte>, c: seq<CByte>, e: seq<CByte>)
    ensures h + a + b + c + e == h + ((a + b) + (c + e))
  {
  }

  /** The front of a pattern is an ending or the text of a piece. */
  lemma {:induction false} PieceWritten(p: seq<CByte>) returns (piece: Piece)
    requires !Ending(p)
    ensures PieceOk(piece) && PieceText(piece) <= p
  {
    if p[0] == 0x2A {
      piece := Asterisk;
    } else if p[0] == 0x3F {
      piece := QuestionMark;
    } else if p[0] == 0x5B {
      piece := ClassWritten(p[1..]);
      assert p == [0x5B] + p[1..];
    } else {
      piece := Byte(SignAt(p, 0));
    }
  }

  /** Every pattern is a row of pieces and an ending, so the laws of both together say what it matches. */
  lemma {:induction false} EveryPattern(p: seq<CByte>) returns (ps: seq<Piece>, end: seq<CByte>)
    ensures AllOk(ps) && Ending(end) && p == AllText(ps) + end
    decreases |p|
  {
    if Ending(p) {
      ps, end := [], p;
      assert AllText([]) + p == p;
    } else {
      var first := PieceWritten(p);
      hide *;
      var n := |PieceText(first)|;
      var rest;
      rest, end := EveryPattern(p[n..]);
      ps := [first] + rest;
      TextCons(p, first, rest, end);
      AllCons(first, rest);
    }
  }

  lemma {:induction false} AllCons(first: Piece, rest: seq<Piece>)
    requires PieceOk(first) && AllOk(rest)
    ensures AllOk([first] + rest)
  {
  }

  lemma {:induction false} TextCons(p: seq<CByte>, first: Piece, rest: seq<Piece>, end: seq<CByte>)
    requires PieceText(first) <= p && p[|PieceText(first)|..] == AllText(rest) + end
    ensures p == AllText([first] + rest) + end
  {
    hide PieceText;
    var t := PieceText(first);
    assert ([first] + rest)[1..] == rest;
    assert AllText([first] + rest) == t + AllText(rest);
    hide AllText;
    assert p == t + p[|t|..];
    Regroup3(t, AllText(rest), end);
  }

  lemma {:induction false} Regroup3(a: seq<CByte>, b: seq<CByte>, c: seq<CByte>)
    ensures (a + b) + c == a + (b + c)
  {
  }

  // ---------------------------------------------------------------- consequences for users

  /** Anywhere in a pattern, adjacent stars mean one star. */
  lemma {:induction false} CollapseStars(pre: seq<Item>, post: seq<Item>, name: seq<CByte>)
    ensures Matches(pre + [Star, Star] + post, name) <==> Matches(pre + [Star] + post, name)
    decreases |pre|
  {
    if pre == [] {
      StarStar(post, name);
      assert pre + [Star, Star] + post == [Star, Star] + post && pre + [Star] + post == [Star] + post;
    } else {
      var it := pre[0];
      var two, one := pre[1..] + [Star, Star] + post, pre[1..] + [Star] + post;
      assert pre + [Star, Star] + post == [it] + two && pre + [Star] + post == [it] + one;
      forall k | 0 <= k <= |name| ensures Matches(two, name[k..]) <==> Matches(one, name[k..]) {
        CollapseStars(pre[1..], post, name[k..]);
      }
      if it.Star? {
        StarTries(two, name);
        StarTries(one, name);
      } else if name != [] {
        MatchOne(it, two, name);
        MatchOne(it, one, name);
      }
    }
  }

  /** Position `i` of the pattern is where a piece begins: in no class, behind no backslash. */
  predicate Boundary(p: seq<CByte>, i: nat)
    decreases |p|
  {
    i == 0 || (p != [] && FirstItem(p).1 <= i && Boundary(p[FirstItem(p).1..], i - FirstItem(p).1))
  }

  /** A member is read from the bytes up to the end of its class only. */
  lemma MemberLocal(p: seq<CByte>, q: seq<CByte>, i: nat, e: nat)
    requires i + 1 < e <= |p| && e <= |q| && p[..e] == q[..e] && p[e - 1] == CLOSE && p[i] != CLOSE
    requires Member(p, i).1 < e
    ensures Member(q, i) == Member(p, i)
  {
    assert forall k :: 0 <= k < e ==> p[k] == p[..e][k] == q[..e][k] == q[k];
  }

  lemma {:induction false} ClosedBehind(p: seq<CByte>, i: nat)
    requires i <= |p| && Members(p, i).Some?
    ensures p[Members(p, i).value.1 - 1] == CLOSE
    decreases |p| - i
  {
    if p[i] != CLOSE { ClosedBehind(p, Member(p, i).1); }
  }

  lemma {:induction false} MembersLocal(p: seq<CByte>, q: seq<CByte>, i: nat, e: nat)
    requires i <= |p| && Members(p, i).Some? && Members(p, i).value.1 == e
    requires e <= |q| && p[..e] == q[..e]
    ensures Members(q, i) == Members(p, i)
    decreases |p| - i
  {
    assert p[i] == p[..e][i] == q[..e][i] == q[i];
    if p[i] != CLOSE {
      ClosedBehind(p, i);
      hide Member;
      var j := Member(p, i).1;
      MemberLocal(p, q, i, e);
      MembersLocal(p, q, j, e);
    }
  }

  lemma ClassLocal(p: seq<CByte>, q: seq<CByte>, e: nat)
    requires ReadClass(p).1 <= e < |p| && e <= |q| && p[..e] == q[..e]
    ensures ReadClass(q) == ReadClass(p)
  {
    var n := ReadClass(p).1;
    assert forall k :: 0 <= k < e ==> p[k] == p[..e][k] == q[..e][k] == q[k];
    var i := if Negates(p) then 1 else 0;
    var from := if At(p, i) == CLOSE then i + 1 else i;
    assert Members(p, from).Some?;
    assert p[..n] == p[..e][..n] && q[..n] == q[..e][..n];
    hide Members;
    MembersLocal(p, q, from, n);
  }

  lemma ItemLocal(p: seq<CByte>, q: seq<CByte>, e: nat)
    requires p != [] && FirstItem(p).1 <= e < |p| && e <= |q| && p[..e] == q[..e]
    ensures q != [] && FirstItem(q) == FirstItem(p)
  {
    assert forall k :: 0 <= k < e ==> p[k] == p[..e][k] == q[..e][k] == q[k];
    hide ReadClass;
    if p[0] == OPEN {
      assert p[1..][..e - 1] == p[..e][1..] && q[1..][..e - 1] == q[..e][1..];
      ClassLocal(p[1..], q[1..], e - 1);
    }
  }

  lemma {:induction false} CollapseBehind(p: seq<CByte>, i: nat, pre: seq<Item>, name: seq<CByte>)
    requires i + 1 < |p| && p[i] == STAR && p[i + 1] == STAR && Boundary(p, i)
    ensures Matches(pre + Parse(p), name) <==> Matches(pre + Parse(p[..i] + p[i + 1..]), name)
    decreases |p|
  {
    hide Matches, FirstItem, Parse;
    if i == 0 {
      TwoStars(p, pre);
      assert p[..0] + p[1..] == p[1..];
      CollapseStars(pre, Parse(p[2..]), name);
    } else {
      var n, it := FirstItem(p).1, FirstItem(p).0;
      ParseWithout(p, i);
      ParseStep(p);
      CollapseBehind(p[n..], i - n, pre + [it], name);
      Regroup(pre, it, Parse(p[n..]));
      Regroup(pre, it, Parse(p[n..][..i - n] + p[n..][i - n + 1..]));
    }
  }

  lemma Regroup(pre: seq<Item>, it: Item, rest: seq<Item>)
    ensures pre + ([it] + rest) == pre + [it] + rest
  {
  }

  /** Without a byte behind it, the first piece is read as before. */
  lemma ParseWithout(p: seq<CByte>, i: nat)
    requires p != [] && FirstItem(p).1 <= i < |p|
    ensures var n, it := FirstItem(p).1, FirstItem(p).0;
      Parse(p[..i] + p[i + 1..]) == [it] + Parse(p[n..][..i - n] + p[n..][i - n + 1..])
  {
    hide FirstItem, Parse;
    var q, n := p[..i] + p[i + 1..], FirstItem(p).1;
    assert p[..i] == q[..i];
    ItemLocal(p, q, i);
    ParseStep(q);
    Behind(p, i, n);
  }

  lemma Behind(p: seq<CByte>, i: nat, n: nat)
    requires n <= i < |p|
    ensures (p[..i] + p[i + 1..])[n..] == p[n..][..i - n] + p[n..][i - n + 1..]
  {
    var q, r := p[..i] + p[i + 1..], p[n..];
    assert p[i + 1..] == r[i - n + 1..];
  }

  /** In the text of a pattern, a star where a piece begins and a star behind it are one star. */
  lemma CollapseStarText(p: seq<CByte>, i: nat, name: seq<CByte>)
    requires i + 1 < |p| && p[i] == STAR && p[i + 1] == STAR && Boundary(p, i)
    ensures Matches(Parse(p), name) <==> Matches(Parse(p[..i] + p[i + 1..]), name)
  {
    var q := p[..i] + p[i + 1..];
    hide Matches, Parse;
    CollapseBehind(p, i, [], name);
    assert [] + Parse(p) == Parse(p) && [] + Parse(q) == Parse(q);
  }

  lemma TwoStars(p: seq<CByte>, pre: seq<Item>)
    requires |p| >= 2 && p[0] == STAR && p[1] == STAR
    ensures pre + Parse(p) == pre + [Star, Star] + Parse(p[2..])
    ensures pre + Parse(p[1..]) == pre + [Star] + Parse(p[2..])
  {
    hide FirstItem, Parse;
    StarFirst(p);
    StarFirst(p[1..]);
    ParseStep(p);
    ParseStep(p[1..]);
    assert p[1..][1..] == p[2..];
    var rest := Parse(p[2..]);
    Regroup(pre, Star, rest);
    Regroup(pre, Star, [Star] + rest);
    Regroup(pre + [Star], Star, rest);
    assert pre + [Star, Star] == pre + [Star] + [Star];
  }

  lemma StarFirst(p: seq<CByte>)
    requires p != [] && p[0] == STAR
    ensures FirstItem(p) == (Star, 1)
  {
    hide ReadClass;
  }

  /** A name with every byte escaped. */
  function Escape(name: seq<CByte>): (p: seq<CByte>) {
    if name == [] then [] else [BACKSLASH, name[0]] + Escape(name[1..])
  }

  /** An escaped name matches that name and no other, stars, brackets and backslashes included. */
  lemma {:induction false} EscapedMatchesOnlyItself(name: seq<CByte>, other: seq<CByte>)
    ensures Matches(Parse(Escape(name)), other) <==> other == name
    decreases |name|
  {
    if name == [] {
      EmptyPattern(other);
    } else {
      var p := Escape(name);
      assert p[2..] == Escape(name[1..]);
      ParseStep(p);
      if other == [] {
        NeedsAByte(p);
      } else {
        MatchOne(Literal(name[0]), Parse(p[2..]), other);
        EscapedMatchesOnlyItself(name[1..], other[1..]);
        assert other == [other[0]] + other[1..] && name == [name[0]] + name[1..];
      }
    }
  }
}
