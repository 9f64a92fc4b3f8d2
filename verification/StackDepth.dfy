/**
  The worst-case stack computation of tools/stack-depth.py: a memoised, recursion-cutting walk
  of the call graph, against every chain of calls and tail calls the graph allows.
 */
module StackDepth {
  import opened Words
  import LockOrder

  /** Frame sizes, and for each function the ones it calls and the ones it jumps to, in the order visited. */
  datatype Graph = Graph(frames: map<string, nat>, calls: map<string, seq<string>>, tails: map<string, seq<string>>)

  function Callees(m: map<string, seq<string>>, s: string): (cs: seq<string>) { if s in m then m[s] else [] }

  /** One line of the reported walk. */
  datatype Line = Frame(sym: string, own: nat) | Recursion(sym: string)

  datatype Answer = Answer(total: nat, path: seq<Line>)

  // ---------------------------------------------------------------- chains of calls

  /**
    An execution from some function on: it calls, jumps to a tail callee, or stops; Cut is a recursion
    not followed.
   */
  datatype Chain = Stop | Cut(sym: string) | Call(sym: string, next: Chain) | Jump(sym: string, next: Chain)

  ghost predicate ChainOk(g: Graph, sym: string, t: Chain)
    decreases t
  {
    match t
    case Stop => true
    case Cut(s) => s == sym && sym in g.frames
    case Call(s, next) =>
      s == sym && sym in g.frames && (next.Stop? || exists c :: c in Callees(g.calls, sym) && ChainOk(g, c, next))
    case Jump(s, next) => s == sym && sym in g.frames && exists c :: c in Callees(g.tails, sym) && ChainOk(g, c, next)
  }

  /** The stack in use at the end: a call keeps its caller's frame, a jump does not. */
  function Cost(g: Graph, t: Chain): (n: nat) {
    match t
    case Stop => 0
    case Cut(_) => 0
    case Call(s, next) => (if s in g.frames then g.frames[s] else 0) + Cost(g, next)
    case Jump(_, next) => Cost(g, next)
  }

  function LinesOf(g: Graph, t: Chain): (p: seq<Line>) {
    match t
    case Stop => []
    case Cut(s) => [Recursion(s)]
    case Call(s, next) => [Frame(s, if s in g.frames then g.frames[s] else 0)] + LinesOf(g, next)
    case Jump(_, next) => LinesOf(g, next)
  }

  predicate Followed(t: Chain) {
    match t
    case Stop => true
    case Cut(_) => false
    case Call(_, next) => Followed(next)
    case Jump(_, next) => Followed(next)
  }

  function FrameSum(p: seq<Line>): (n: nat) {
    if p == [] then 0 else (if p[0].Frame? then p[0].own else 0) + FrameSum(p[1..])
  }

  /** The printed lines add up to the chain's cost. */
  lemma {:induction false} LinesAddUp(g: Graph, t: Chain)
    ensures FrameSum(LinesOf(g, t)) == Cost(g, t)
    decreases t
  {
    match t
    case Call(s, next) => LinesAddUp(g, next); assert LinesOf(g, t)[1..] == LinesOf(g, next);
    case Jump(_, next) => LinesAddUp(g, next);
    case _ =>
  }

  /** No line reports a recursion. */
  predicate Framed(p: seq<Line>) { forall i :: 0 <= i < |p| ==> p[i].Frame? }

  /** Lines without a recursion are those of a chain that was followed to its end. */
  lemma {:induction false} FramedIffFollowed(g: Graph, t: Chain)
    ensures Framed(LinesOf(g, t)) <==> Followed(t)
    decreases t
  {
    match t
    case Stop =>
    case Cut(s) => assert LinesOf(g, t)[0] == Recursion(s);
    case Call(_, next) =>
      FramedIffFollowed(g, next);
      var p := LinesOf(g, t);
      assert p[1..] == LinesOf(g, next);
      assert forall i :: 0 <= i < |p| - 1 ==> p[i + 1] == p[1..][i];
      assert forall i :: 1 <= i < |p| ==> p[i] == p[1..][i - 1];
    case Jump(_, next) => FramedIffFollowed(g, next);
  }

  // ---------------------------------------------------------------- the memoised walk

  /** What a visit leaves behind. */
  datatype Walked = Walked(a: Answer, memo: map<string, Answer>)

  function Deeper(best: Answer, sub: Answer): (a: Answer) { if sub.total > best.total then sub else best }

  /** depth(sym), with what is on the stack and what is remembered. */
  function Walk(g: Graph, onstack: set<string>, memo: map<string, Answer>, sym: string): (w: Walked)
    decreases |g.frames.Keys - onstack|, 0, 0
  {
    if sym in memo then Walked(memo[sym], memo)
    else if sym in onstack then Walked(Answer(0, [Recursion(sym)]), memo)
    else if sym !in g.frames then Walked(Answer(0, []), memo)
    else
      Smaller(g.frames.Keys, onstack, sym);
      var w := WalkBody(g, onstack + {sym}, memo, sym);
      Walked(w.a, w.memo[sym := w.a])
  }

  /** The two loops: the deepest callee under this frame, or a tail callee that goes deeper in its place. */
  function WalkBody(g: Graph, onstack: set<string>, memo: map<string, Answer>, sym: string): (w: Walked)
    requires sym in g.frames
    decreases |g.frames.Keys - onstack|, 2, 0
  {
    var best := WalkAll(g, onstack, memo, Callees(g.calls, sym), Answer(0, []));
    WalkAll(g, onstack, best.memo, Callees(g.tails, sym), UnderFrame(g, sym, best.a))
  }

  function UnderFrame(g: Graph, sym: string, best: Answer): (a: Answer)
    requires sym in g.frames
  {
    Answer(g.frames[sym] + best.total, [Frame(sym, g.frames[sym])] + best.path)
  }

  function WalkAll(g: Graph, onstack: set<string>, memo: map<string, Answer>, cs: seq<string>, best: Answer)
    : (w: Walked)
    decreases |g.frames.Keys - onstack|, 1, |cs|
  {
    if cs == [] then Walked(best, memo)
    else
      var init := WalkAll(g, onstack, memo, cs[..|cs| - 1], best);
      var sub := Walk(g, onstack, init.memo, cs[|cs| - 1]);
      Walked(Deeper(init.a, sub.a), sub.memo)
  }

  lemma Smaller(all: set<string>, used: set<string>, sym: string)
    requires sym in all && sym !in used
    ensures |all - (used + {sym})| < |all - used|
  {
    assert all - used == (all - (used + {sym})) + {sym};
  }

  class Walker {
    const g: Graph
    var memo: map<string, Answer>
    var onstack: set<string>

    constructor (g: Graph)
      ensures this.g == g && onstack == {} && memo == map[]
    {
      this.g := g;
      memo, onstack := map[], {};
    }

    /** depth(sym): on every graph it ends and leaves the stack set as it was. */
    method Depth(sym: string) returns (a: Answer)
      modifies this
      ensures onstack == old(onstack)
      ensures Walked(a, memo) == Walk(g, old(onstack), old(memo), sym)
      decreases |g.frames.Keys - onstack|, 0
    {
      if sym in memo {
        return memo[sym];
      }
      if sym in onstack {
        return Answer(0, [Recursion(sym)]);
      }
      if sym !in g.frames {
        return Answer(0, []);
      }
      hide WalkAll;
      Smaller(g.frames.Keys, onstack, sym);
      var own := g.frames[sym];
      onstack := onstack + {sym};
      var best := Deepen(Callees(g.calls, sym), Answer(0, []));
      a := Answer(own + best.total, [Frame(sym, own)] + best.path);
      a := Deepen(Callees(g.tails, sym), a);
      onstack := onstack - {sym};
      assert onstack == old(onstack);
      memo := memo[sym := a];
    }

    /** Either loop over callees: the deepest of them, if it goes deeper than `best`. */
    method Deepen(cs: seq<string>, best: Answer) returns (a: Answer)
      modifies this
      ensures onstack == old(onstack)
      ensures Walked(a, memo) == WalkAll(g, old(onstack), old(memo), cs, best)
      decreases |g.frames.Keys - onstack|, 1
    {
      a := best;
      assert cs[..0] == [];
      hide Walk;
      for i := 0 to |cs|
        invariant onstack == old(onstack)
        invariant Walked(a, memo) == WalkAll(g, old(onstack), old(memo), cs[..i], best)
      {
        var sub := Depth(cs[i]);
        if sub.total > a.total {
          a := sub;
        }
        assert cs[..i + 1][..i] == cs[..i];
      }
      assert cs[..|cs|] == cs;
    }

    /**
      One root of the report, from a cleared memo.  On every graph the total is the frame sum of
      the lines printed, no line reports a recursion, and a chain of the graph explains both.
      Where the root reaches no recursion no chain goes deeper; where it reaches one that keeps a
      frame, some chain does.
     */
    method Report(root: string) returns (a: Answer)
      modifies this
      ensures onstack == {} && a == Figure(g, root)
      ensures a.total == FrameSum(a.path) && Framed(a.path) && exists t :: Explains(g, root, a, t) && Followed(t)
      ensures !RecursiveFrom(g, root) ==> IsDeepest(g, root, a.total)
      ensures CostlyFrom(g, root) ==> !IsDeepest(g, root, a.total)
    {
      memo, onstack := map[], {};
      a := Depth(root);
      hide *;
      FigureExplained(g, root);
      FigureRight(g, root);
      FigureWrong(g, root);
    }
  }

  /** What the report prints for a root. */
  function Figure(g: Graph, root: string): (a: Answer) { Walk(g, {}, map[], root).a }

  /** No chain from the root goes deeper. */
  ghost predicate IsDeepest(g: Graph, root: string, n: nat) { forall t :: ChainOk(g, root, t) ==> Cost(g, t) <= n }

  // ---------------------------------------------------------------- every answer is a chain's

  /** `t` explains `a`: it is a chain of the graph, and `a` prints and totals it. */
  ghost predicate Explains(g: Graph, sym: string, a: Answer, t: Chain) {
    ChainOk(g, sym, t) && a.total == Cost(g, t) && a.path == LinesOf(g, t)
  }

  ghost predicate Explained(g: Graph, sym: string, a: Answer) { exists t :: Explains(g, sym, a, t) }

  ghost predicate MemoExplained(g: Graph, memo: map<string, Answer>) {
    forall s :: s in memo ==> s in g.frames && Explained(g, s, memo[s]) && Framed(memo[s].path)
  }

  ghost predicate OneExplained(g: Graph, cs: seq<string>, a: Answer) { exists c :: c in cs && Explained(g, c, a) }

  lemma CallExplained(g: Graph, sym: string, best: Answer)
    requires sym in g.frames && (best == Answer(0, []) || OneExplained(g, Callees(g.calls, sym), best))
    ensures Explained(g, sym, UnderFrame(g, sym, best))
  {
    if best == Answer(0, []) {
      assert LinesOf(g, Call(sym, Stop)) == [Frame(sym, g.frames[sym])] + LinesOf(g, Stop);
      assert Explains(g, sym, UnderFrame(g, sym, best), Call(sym, Stop));
    } else {
      var c :| c in Callees(g.calls, sym) && Explained(g, c, best);
      var t :| Explains(g, c, best, t);
      assert LinesOf(g, Call(sym, t)) == [Frame(sym, g.frames[sym])] + LinesOf(g, t);
      assert Explains(g, sym, UnderFrame(g, sym, best), Call(sym, t));
    }
  }

  lemma JumpExplained(g: Graph, sym: string, a: Answer)
    requires sym in g.frames && OneExplained(g, Callees(g.tails, sym), a)
    ensures Explained(g, sym, a)
  {
    var c :| c in Callees(g.tails, sym) && Explained(g, c, a);
    var t :| Explains(g, c, a, t);
    assert Explains(g, sym, a, Jump(sym, t));
  }

  lemma CutExplained(g: Graph, sym: string)
    requires sym in g.frames
    ensures Explained(g, sym, Answer(0, [Recursion(sym)]))
  {
    assert Explains(g, sym, Answer(0, [Recursion(sym)]), Cut(sym));
  }

  lemma StopExplained(g: Graph, sym: string)
    ensures Explained(g, sym, Answer(0, []))
  {
    assert Explains(g, sym, Answer(0, []), Stop);
  }

  /** On every graph a visit reports a chain, and a recursion line only as 0 for a function on the stack. */
  lemma {:induction false} WalkExplained(g: Graph, onstack: set<string>, memo: map<string, Answer>, sym: string)
    requires onstack <= g.frames.Keys && MemoExplained(g, memo)
    ensures var w := Walk(g, onstack, memo, sym);
      && Explained(g, sym, w.a) && MemoExplained(g, w.memo)
      && (Framed(w.a.path) || (w.a.total == 0 && sym in onstack))
    decreases |g.frames.Keys - onstack|, 0, 0
  {
    hide Explained, WalkAll;
    if sym !in memo && sym in onstack {
      CutExplained(g, sym);
    } else if sym !in memo && sym !in g.frames {
      StopExplained(g, sym);
    } else if sym !in memo {
      Smaller(g.frames.Keys, onstack, sym);
      var on := onstack + {sym};
      var best := WalkAll(g, on, memo, Callees(g.calls, sym), Answer(0, []));
      AllExplained(g, on, memo, Callees(g.calls, sym), Answer(0, []));
      CallExplained(g, sym, best.a);
      var mine := UnderFrame(g, sym, best.a);
      AllExplained(g, on, best.memo, Callees(g.tails, sym), mine);
      var w := WalkAll(g, on, best.memo, Callees(g.tails, sym), mine);
      if w.a != mine {
        JumpExplained(g, sym, w.a);
      }
    }
  }

  lemma {:induction false} AllExplained(g: Graph, onstack: set<string>, memo: map<string, Answer>, cs: seq<string>,
                                        best: Answer)
    requires onstack <= g.frames.Keys && MemoExplained(g, memo) && Framed(best.path)
    ensures var w := WalkAll(g, onstack, memo, cs, best);
      (w.a == best || OneExplained(g, cs, w.a)) && MemoExplained(g, w.memo) && Framed(w.a.path)
    decreases |g.frames.Keys - onstack|, 1, |cs|
  {
    if cs != [] {
      hide Explained, Walk, MemoExplained;
      var init, c := cs[..|cs| - 1], cs[|cs| - 1];
      AllExplained(g, onstack, memo, init, best);
      WalkExplained(g, onstack, WalkAll(g, onstack, memo, init, best).memo, c);
      assert forall d :: d in init ==> d in cs;
    }
  }

  lemma FigureExplained(g: Graph, root: string)
    ensures var a := Figure(g, root);
      a.total == FrameSum(a.path) && Framed(a.path) && exists t :: Explains(g, root, a, t) && Followed(t)
  {
    hide Walk, Explains, Framed;
    WalkExplained(g, {}, map[], root);
    var a := Figure(g, root);
    var t :| Explains(g, root, a, t);
    assert a.path == LinesOf(g, t) && a.total == Cost(g, t) by { ExplainsMeans(g, root, a, t); }
    LinesAddUp(g, t);
    FramedIffFollowed(g, t);
  }

  lemma ExplainsMeans(g: Graph, sym: string, a: Answer, t: Chain)
    requires Explains(g, sym, a, t)
    ensures ChainOk(g, sym, t) && a.path == LinesOf(g, t) && a.total == Cost(g, t)
  {
  }

  // ---------------------------------------------------------------- without recursion

  /** A ranking of some functions that falls along every edge from one of them, and so ranks what they lead to. */
  ghost predicate Ranked(g: Graph, rank: map<string, nat>) {
    forall s :: s in rank ==>
      s in g.frames && Below(g, rank, Callees(g.calls, s), rank[s]) && Below(g, rank, Callees(g.tails, s), rank[s])
  }

  ghost predicate Below(g: Graph, rank: map<string, nat>, cs: seq<string>, bound: nat) {
    forall i :: 0 <= i < |cs| && cs[i] in g.frames ==> cs[i] in rank && rank[cs[i]] < bound
  }

  ghost predicate Covers(g: Graph, rank: map<string, nat>, sym: string) { sym in g.frames ==> sym in rank }

  function Max(a: nat, b: nat): (m: nat) { if a > b then a else b }

  /** The plain definition: own frame and the deepest call, or the deepest tail callee. */
  ghost function Deepest(g: Graph, rank: map<string, nat>, sym: string): (n: nat)
    requires Ranked(g, rank) && Covers(g, rank, sym)
    decreases if sym in rank then rank[sym] else 0
  {
    if sym !in g.frames then 0
    else Max(g.frames[sym] + DeepestOf(g, rank, Callees(g.calls, sym), rank[sym]),
             DeepestOf(g, rank, Callees(g.tails, sym), rank[sym]))
  }

  ghost function DeepestOf(g: Graph, rank: map<string, nat>, cs: seq<string>, bound: nat): (n: nat)
    requires Ranked(g, rank) && Below(g, rank, cs, bound)
    decreases bound, |cs|
  {
    if cs == [] then 0
    else
      var c := cs[|cs| - 1];
      Max(DeepestOf(g, rank, cs[..|cs| - 1], bound), if c in g.frames then Deepest(g, rank, c) else 0)
  }

  lemma {:induction false} DeepestOfBounds(g: Graph, rank: map<string, nat>, cs: seq<string>, bound: nat, c: string)
    requires Ranked(g, rank) && Below(g, rank, cs, bound) && c in cs
    ensures Covers(g, rank, c) && Deepest(g, rank, c) <= DeepestOf(g, rank, cs, bound)
    decreases |cs|
  {
    if c != cs[|cs| - 1] {
      assert cs == cs[..|cs| - 1] + [cs[|cs| - 1]];
      DeepestOfBounds(g, rank, cs[..|cs| - 1], bound, c);
    }
  }

  /** No chain needs more than the plain definition says. */
  lemma {:induction false} ChainWithin(g: Graph, rank: map<string, nat>, sym: string, t: Chain)
    requires Ranked(g, rank) && Covers(g, rank, sym) && ChainOk(g, sym, t)
    ensures Cost(g, t) <= Deepest(g, rank, sym)
    decreases t
  {
    match t
    case Call(_, next) =>
      if !next.Stop? {
        var c :| c in Callees(g.calls, sym) && ChainOk(g, c, next);
        DeepestOfBounds(g, rank, Callees(g.calls, sym), rank[sym], c);
        ChainWithin(g, rank, c, next);
      }
    case Jump(_, next) =>
      var c :| c in Callees(g.tails, sym) && ChainOk(g, c, next);
      DeepestOfBounds(g, rank, Callees(g.tails, sym), rank[sym], c);
      ChainWithin(g, rank, c, next);
    case _ =>
  }

  /** What is remembered is the plain definition's figure. */
  ghost predicate MemoDeepest(g: Graph, rank: map<string, nat>, memo: map<string, Answer>)
    requires Ranked(g, rank)
  {
    forall s :: s in memo ==> s in rank && memo[s].total == Deepest(g, rank, s)
  }

  /** Everything on the stack is ranked at least this high. */
  ghost predicate AtLeast(rank: map<string, nat>, onstack: set<string>, n: nat) {
    forall s :: s in onstack ==> s in rank && rank[s] >= n
  }

  /** Under a ranking a visit never meets the stack, and gives the plain definition's figure, memo or not. */
  lemma {:induction false} WalkDeepest(g: Graph, rank: map<string, nat>, onstack: set<string>,
                                       memo: map<string, Answer>, sym: string)
    requires Ranked(g, rank) && Covers(g, rank, sym) && MemoDeepest(g, rank, memo)
    requires sym in rank ==> AtLeast(rank, onstack, rank[sym] + 1)
    ensures var w := Walk(g, onstack, memo, sym);
      w.a.total == Deepest(g, rank, sym) && MemoDeepest(g, rank, w.memo)
    decreases |g.frames.Keys - onstack|, 0, 0
  {
    hide WalkBody, Deepest, Below;
    if sym !in memo && sym in g.frames {
      Smaller(g.frames.Keys, onstack, sym);
      BodyDeepest(g, rank, onstack + {sym}, memo, sym);
    } else if sym !in memo {
      UnknownIsZero(g, rank, sym);
    }
  }

  lemma {:induction false} BodyDeepest(g: Graph, rank: map<string, nat>, onstack: set<string>,
                                       memo: map<string, Answer>, sym: string)
    requires Ranked(g, rank) && sym in rank && MemoDeepest(g, rank, memo) && AtLeast(rank, onstack, rank[sym])
    ensures var w := WalkBody(g, onstack, memo, sym);
      w.a.total == Deepest(g, rank, sym) && MemoDeepest(g, rank, w.memo)
    decreases |g.frames.Keys - onstack|, 2, 0
  {
    hide WalkAll, DeepestOf, MemoDeepest, AtLeast, Below, Callees;
    var calls, tails := Callees(g.calls, sym), Callees(g.tails, sym);
    var best := WalkAll(g, onstack, memo, calls, Answer(0, []));
    AllDeepest(g, rank, onstack, memo, calls, Answer(0, []), rank[sym]);
    AllDeepest(g, rank, onstack, best.memo, tails, UnderFrame(g, sym, best.a), rank[sym]);
  }

  lemma {:induction false} AllDeepest(g: Graph, rank: map<string, nat>, onstack: set<string>,
                                      memo: map<string, Answer>, cs: seq<string>, best: Answer, bound: nat)
    requires Ranked(g, rank) && Below(g, rank, cs, bound) && MemoDeepest(g, rank, memo)
    requires AtLeast(rank, onstack, bound)
    ensures var w := WalkAll(g, onstack, memo, cs, best);
      w.a.total == Max(best.total, DeepestOf(g, rank, cs, bound)) && MemoDeepest(g, rank, w.memo)
    decreases |g.frames.Keys - onstack|, 1, |cs|
  {
    if cs != [] {
      hide Walk, MemoDeepest, Deepest;
      var init, c := cs[..|cs| - 1], cs[|cs| - 1];
      AllDeepest(g, rank, onstack, memo, init, best, bound);
      var m := WalkAll(g, onstack, memo, init, best).memo;
      WalkDeepest(g, rank, onstack, m, c);
      UnknownIsZero(g, rank, c);
    }
  }

  lemma UnknownIsZero(g: Graph, rank: map<string, nat>, c: string)
    requires Ranked(g, rank) && Covers(g, rank, c)
    ensures c !in g.frames ==> Deepest(g, rank, c) == 0
  {
  }

  // ---------------------------------------------------------------- what the number means

  /** Some chain without a cut reaches the plain definition's figure. */
  lemma {:induction false} DeepestReached(g: Graph, rank: map<string, nat>, sym: string) returns (t: Chain)
    requires Ranked(g, rank) && Covers(g, rank, sym)
    ensures ChainOk(g, sym, t) && Followed(t) && Cost(g, t) == Deepest(g, rank, sym)
    decreases if sym in rank then rank[sym] else 0
  {
    if sym !in g.frames {
      t := Stop;
    } else {
      var calls, tails := Callees(g.calls, sym), Callees(g.tails, sym);
      var c, ct := DeepestOfReached(g, rank, calls, rank[sym]);
      t := Call(sym, ct);
      if DeepestOf(g, rank, tails, rank[sym]) > g.frames[sym] + DeepestOf(g, rank, calls, rank[sym]) {
        var d, dt := DeepestOfReached(g, rank, tails, rank[sym]);
        t := Jump(sym, dt);
      }
    }
  }

  lemma {:induction false} DeepestOfReached(g: Graph, rank: map<string, nat>, cs: seq<string>, bound: nat)
    returns (c: string, t: Chain)
    requires Ranked(g, rank) && Below(g, rank, cs, bound)
    ensures Followed(t) && Cost(g, t) == DeepestOf(g, rank, cs, bound)
    ensures t.Stop? || (c in cs && ChainOk(g, c, t))
    ensures DeepestOf(g, rank, cs, bound) > 0 ==> c in cs && ChainOk(g, c, t)
    decreases bound, |cs|
  {
    c, t := "", Stop;
    if cs != [] {
      var init, last := cs[..|cs| - 1], cs[|cs| - 1];
      c, t := DeepestOfReached(g, rank, init, bound);
      if last in g.frames && Deepest(g, rank, last) > DeepestOf(g, rank, init, bound) {
        t := DeepestReached(g, rank, last);
        c := last;
      }
    }
  }

  /**
    Without recursion the figure is the maximum over every chain of calls and tail calls: some
    chain reaches it and none exceeds it.
   */
  lemma DeepestIsMaximum(g: Graph, rank: map<string, nat>, sym: string, n: nat)
    requires Ranked(g, rank) && Covers(g, rank, sym)
    ensures n == Deepest(g, rank, sym) <==>
      && (exists t :: ChainOk(g, sym, t) && Followed(t) && Cost(g, t) == n)
      && (forall t :: ChainOk(g, sym, t) ==> Cost(g, t) <= n)
  {
    var t := DeepestReached(g, rank, sym);
    forall u | ChainOk(g, sym, u) ensures Cost(g, u) <= Deepest(g, rank, sym) {
      ChainWithin(g, rank, sym, u);
    }
  }

  /** The same frames and the same edges, visited in any order and any number of times. */
  ghost predicate SameEdges(g: Graph, h: Graph) {
    && g.frames == h.frames
    && (forall s, c :: c in Callees(g.calls, s) <==> c in Callees(h.calls, s))
    && (forall s, c :: c in Callees(g.tails, s) <==> c in Callees(h.tails, s))
  }

  lemma {:induction false} SameChains(g: Graph, h: Graph, sym: string, t: Chain)
    requires SameEdges(g, h) && ChainOk(g, sym, t)
    ensures ChainOk(h, sym, t) && Cost(g, t) == Cost(h, t)
    decreases t
  {
    match t
    case Call(_, next) =>
      if !next.Stop? {
        var c :| c in Callees(g.calls, sym) && ChainOk(g, c, next);
        SameChains(g, h, c, next);
      }
    case Jump(_, next) =>
      var c :| c in Callees(g.tails, sym) && ChainOk(g, c, next);
      SameChains(g, h, c, next);
    case _ =>
  }

  /** The order in which a set of callees is visited does not change the figure. */
  lemma OrderIrrelevant(g: Graph, h: Graph, rank: map<string, nat>, rank': map<string, nat>, sym: string)
    requires SameEdges(g, h) && Ranked(g, rank) && Covers(g, rank, sym) && Ranked(h, rank') && Covers(h, rank', sym)
    ensures Deepest(g, rank, sym) == Deepest(h, rank', sym)
  {
    var t := DeepestReached(g, rank, sym);
    var u := DeepestReached(h, rank', sym);
    SameChains(g, h, sym, t);
    SameChains(h, g, sym, u);
    ChainWithin(h, rank', sym, t);
    ChainWithin(g, rank, sym, u);
  }

  // ---------------------------------------------------------------- recursion

  /** Control goes from one known function to another, by a call or a jump. */
  predicate Leads(g: Graph, s: string, c: string) {
    s in g.frames && c in g.frames && (c in Callees(g.calls, s) || c in Callees(g.tails, s))
  }

  ghost predicate IsWalk(g: Graph, p: seq<string>) {
    p != [] && forall i, j :: 0 <= i < |p| - 1 && j == i + 1 ==> Leads(g, p[i], p[j])
  }

  /** A walk from the root that ends where it was at step `i`. */
  ghost predicate Returns(g: Graph, root: string, p: seq<string>, i: nat) {
    IsWalk(g, p) && p[0] == root && i < |p| - 1 && p[i] == p[|p| - 1]
  }

  /** The root leads to a function that comes back to itself. */
  ghost predicate RecursiveFrom(g: Graph, root: string) { exists p, i: nat :: Returns(g, root, p, i) }

  ghost predicate Reaches(g: Graph, root: string, s: string) {
    exists p :: IsWalk(g, p) && p[0] == root && p[|p| - 1] == s
  }

  lemma ReachesOn(g: Graph, root: string, s: string, c: string)
    requires Reaches(g, root, s) && Leads(g, s, c)
    ensures Reaches(g, root, c)
  {
    var p :| IsWalk(g, p) && p[0] == root && p[|p| - 1] == s;
    assert IsWalk(g, p + [c]);
  }

  /** Along a walk from a ranked function everything is ranked, and lower. */
  lemma {:induction false} RankFalls(g: Graph, rank: map<string, nat>, p: seq<string>, i: nat)
    requires Ranked(g, rank) && IsWalk(g, p) && Covers(g, rank, p[0]) && i < |p| - 1
    ensures p[i] in rank && p[|p| - 1] in rank && rank[p[|p| - 1]] < rank[p[i]]
    decreases |p|
  {
    var n := |p| - 1;
    assert Leads(g, p[n - 1], p[n]);
    if n > 1 {
      RankFalls(g, rank, p[..n], if i < n - 1 then i else 0);
    }
    OneDown(g, rank, p[n - 1], p[n]);
  }

  lemma OneDown(g: Graph, rank: map<string, nat>, s: string, c: string)
    requires Ranked(g, rank) && s in rank && Leads(g, s, c)
    ensures c in rank && rank[c] < rank[s]
  {
    var cs := if c in Callees(g.calls, s) then Callees(g.calls, s) else Callees(g.tails, s);
    var i :| 0 <= i < |cs| && cs[i] == c;
  }

  ghost function ReachedBy(g: Graph, root: string): (r: set<string>) {
    set s | s in g.frames.Keys && Reaches(g, root, s)
  }

  /** The edges the root leads to. */
  ghost function EdgesFrom(g: Graph, root: string): (h: LockOrder.Graph) {
    map s, c | s in ReachedBy(g, root) && c in g.frames.Keys && Leads(g, s, c)
      :: (s, c) := LockOrder.LockEdge(s, c, "", "", "")
  }

  /** What the root reaches can be ranked exactly when the root reaches no recursion. */
  lemma RankedIffNoRecursion(g: Graph, root: string)
    ensures (exists rank :: Ranked(g, rank) && Covers(g, rank, root)) <==> !RecursiveFrom(g, root)
  {
    hide Ranked, RecursiveFrom, Covers;
    if rank :| Ranked(g, rank) && Covers(g, rank, root) {
      NoReturn(g, rank, root);
    }
    if !RecursiveFrom(g, root) {
      var rank := RankingOf(g, root);
    }
  }

  lemma NoReturn(g: Graph, rank: map<string, nat>, root: string)
    requires Ranked(g, rank) && Covers(g, rank, root)
    ensures !RecursiveFrom(g, root)
  {
    forall p, i: nat ensures !Returns(g, root, p, i) {
      if IsWalk(g, p) && p[0] == root && i < |p| - 1 {
        RankFalls(g, rank, p, i);
      }
    }
  }

  lemma RankingOf(g: Graph, root: string) returns (rank: map<string, nat>)
    requires !RecursiveFrom(g, root)
    ensures Ranked(g, rank) && Covers(g, rank, root)
  {
    hide *;
    NoCycleLeft(g, root);
    var r := ReachedBy(g, root);
    var up := LockOrder.RankLocks(EdgesFrom(g, root), r);
    rank := Flipped(g, root, up, |r|);
    AllDown(g, root, rank);
  }

  lemma Flipped(g: Graph, root: string, up: map<string, int>, n: nat) returns (rank: map<string, nat>)
    requires up.Keys == ReachedBy(g, root) && forall s :: s in ReachedBy(g, root) ==> up[s] <= n
    requires forall s, c :: s in ReachedBy(g, root) && c in ReachedBy(g, root) && (s, c) in EdgesFrom(g, root) ==>
      up[s] < up[c]
    ensures rank.Keys == ReachedBy(g, root)
    ensures forall s, c :: s in rank && Leads(g, s, c) ==> c in rank && rank[c] < rank[s]
  {
    hide Callees, Reaches;
    rank := map s | s in up :: n - up[s];
    forall s, c | s in rank && Leads(g, s, c) ensures c in rank && rank[c] < rank[s] {
      ReachesOn(g, root, s, c);
      assert (s, c) in EdgesFrom(g, root);
    }
  }

  lemma AllDown(g: Graph, root: string, rank: map<string, nat>)
    requires rank.Keys == ReachedBy(g, root)
    requires forall s, c :: s in rank && Leads(g, s, c) ==> c in rank && rank[c] < rank[s]
    ensures Ranked(g, rank) && Covers(g, rank, root)
  {
    hide Callees;
    forall s | s in rank
      ensures Below(g, rank, Callees(g.calls, s), rank[s]) && Below(g, rank, Callees(g.tails, s), rank[s])
    {
      forall c ensures Leads(g, s, c) ==> c in rank && rank[c] < rank[s] {}
    }
    assert IsWalk(g, [root]);
  }

  lemma NoCycleLeft(g: Graph, root: string)
    requires !RecursiveFrom(g, root)
    ensures forall a, b :: (a, b) in EdgesFrom(g, root) ==> a != b
    ensures forall c :: !LockOrder.IsCycle(EdgesFrom(g, root), c)
  {
    hide RecursiveFrom, EdgesFrom;
    forall a, b ensures (a, b) in EdgesFrom(g, root) ==> a != b {
      SelfIsRecursion(g, root, a);
    }
    forall c ensures !LockOrder.IsCycle(EdgesFrom(g, root), c) {
      CycleIsRecursion(g, root, c);
    }
  }

  lemma SelfIsRecursion(g: Graph, root: string, a: string)
    ensures (a, a) in EdgesFrom(g, root) ==> RecursiveFrom(g, root)
  {
    if (a, a) in EdgesFrom(g, root) {
      var p :| IsWalk(g, p) && p[0] == root && p[|p| - 1] == a;
      assert Returns(g, root, p + [a], |p| - 1);
    }
  }

  lemma CycleIsRecursion(g: Graph, root: string, c: seq<string>)
    ensures LockOrder.IsCycle(EdgesFrom(g, root), c) ==> RecursiveFrom(g, root)
  {
    hide RecursiveFrom;
    if LockOrder.IsCycle(EdgesFrom(g, root), c) {
      CycleIsWalk(g, root, c);
      hide LockOrder.IsCycle, EdgesFrom;
      LoopIsRecursion(g, root, c + [c[0]]);
    }
  }

  lemma CycleIsWalk(g: Graph, root: string, c: seq<string>)
    requires LockOrder.IsCycle(EdgesFrom(g, root), c)
    ensures c != [] && IsWalk(g, c + [c[0]]) && Reaches(g, root, c[0])
  {
    hide Leads, Reaches;
    var q := c + [c[0]];
    assert (c[|c| - 1], c[0]) in EdgesFrom(g, root);
    forall i, j | 0 <= i < |q| - 1 && j == i + 1 ensures Leads(g, q[i], q[j]) && Reaches(g, root, q[i]) {
      assert (q[i], q[j]) in EdgesFrom(g, root);
    }
    assert (q[0], q[1]) in EdgesFrom(g, root);
  }

  lemma LoopIsRecursion(g: Graph, root: string, q: seq<string>)
    requires IsWalk(g, q) && |q| >= 2 && q[0] == q[|q| - 1] && Reaches(g, root, q[0])
    ensures RecursiveFrom(g, root)
  {
    var p :| IsWalk(g, p) && p[0] == root && p[|p| - 1] == q[0];
    hide IsWalk;
    WalkOn(g, p, q);
    assert Returns(g, root, p + q[1..], |p| - 1);
  }

  lemma WalkOn(g: Graph, p: seq<string>, q: seq<string>)
    requires IsWalk(g, p) && IsWalk(g, q) && p[|p| - 1] == q[0]
    ensures IsWalk(g, p + q[1..])
  {
    hide Leads;
    var w := p + q[1..];
    forall i, j | 0 <= i < |w| - 1 && j == i + 1 ensures Leads(g, w[i], w[j]) {
      var k, l := i - |p| + 1, j - |p| + 1;
      assert i >= |p| - 1 ==> w[i] == q[k] && w[j] == q[l];
    }
  }

  /** Where the root reaches no recursion the figure is the deepest chain's. */
  lemma FigureRight(g: Graph, root: string)
    ensures !RecursiveFrom(g, root) ==> IsDeepest(g, root, Figure(g, root).total)
  {
    hide Walk, ChainOk, RecursiveFrom;
    if !RecursiveFrom(g, root) {
      var rank := RankingOf(g, root);
      hide Ranked, Covers, Deepest;
      WalkDeepest(g, rank, {}, map[], root);
      forall t | ChainOk(g, root, t) ensures Cost(g, t) <= Figure(g, root).total {
        ChainWithin(g, rank, root, t);
      }
    }
  }

  // ---------------------------------------------------------------- a recursion that keeps a frame

  /** This step is a call, and its frame stays. */
  predicate Keeps(g: Graph, s: string, c: string) {
    s in g.frames && g.frames[s] > 0 && c in Callees(g.calls, s)
  }

  /** Some step of the walk from `i` on keeps a frame. */
  ghost predicate KeepsFrom(g: Graph, p: seq<string>, i: nat) {
    exists k, l :: i <= k < |p| - 1 && l == k + 1 && Keeps(g, p[k], p[l])
  }

  /** The root leads to a recursion every turn of which keeps some frame. */
  ghost predicate CostlyFrom(g: Graph, root: string) {
    exists p, i: nat :: Returns(g, root, p, i) && KeepsFrom(g, p, i)
  }

  lemma StepBack(g: Graph, s: string, c: string, t: Chain) returns (u: Chain)
    requires Leads(g, s, c) && ChainOk(g, c, t)
    ensures ChainOk(g, s, u) && Cost(g, u) >= Cost(g, t) && (Keeps(g, s, c) ==> Cost(g, u) > Cost(g, t))
  {
    u := if c in Callees(g.calls, s) then Call(s, t) else Jump(s, t);
  }

  /** A chain from the end of a walk, continued back to its beginning. */
  lemma {:induction false} WalkBack(g: Graph, p: seq<string>, t: Chain) returns (u: Chain)
    requires IsWalk(g, p) && ChainOk(g, p[|p| - 1], t)
    ensures ChainOk(g, p[0], u) && Cost(g, u) >= Cost(g, t) && (KeepsFrom(g, p, 0) ==> Cost(g, u) > Cost(g, t))
    decreases |p|
  {
    u := t;
    if |p| > 1 {
      hide ChainOk, Leads, Keeps;
      var q := p[1..];
      assert IsWalk(g, q) by {
        forall i, j | 0 <= i < |q| - 1 && j == i + 1 ensures Leads(g, q[i], q[j]) {
          assert Leads(g, p[i + 1], p[j + 1]);
        }
      }
      var v := WalkBack(g, q, t);
      assert Leads(g, p[0], p[1]);
      u := StepBack(g, p[0], p[1], v);
      if KeepsFrom(g, p, 0) && !Keeps(g, p[0], p[1]) {
        var k, l :| 0 <= k < |p| - 1 && l == k + 1 && Keeps(g, p[k], p[l]);
        assert Keeps(g, q[k - 1], q[l - 1]);
      }
    }
  }

  /** Round and round: a closed walk that keeps a frame gives chains of any depth. */
  lemma {:induction false} RoundAndRound(g: Graph, q: seq<string>, n: nat) returns (t: Chain)
    requires IsWalk(g, q) && q[0] == q[|q| - 1] && KeepsFrom(g, q, 0)
    ensures ChainOk(g, q[0], t) && Cost(g, t) >= n
  {
    if n == 0 {
      t := Stop;
    } else {
      t := RoundAndRound(g, q, n - 1);
      hide ChainOk, KeepsFrom;
      t := WalkBack(g, q, t);
    }
  }

  lemma WalkParts(g: Graph, p: seq<string>, i: nat)
    requires IsWalk(g, p) && i < |p| - 1
    ensures IsWalk(g, p[..i + 1]) && IsWalk(g, p[i..]) && (KeepsFrom(g, p, i) ==> KeepsFrom(g, p[i..], 0))
  {
    hide Leads, Keeps;
    var q := p[i..];
    forall j, k | 0 <= j < |q| - 1 && k == j + 1 ensures Leads(g, q[j], q[k]) {
      assert Leads(g, p[i + j], p[i + k]);
    }
    if KeepsFrom(g, p, i) {
      var k, l :| i <= k < |p| - 1 && l == k + 1 && Keeps(g, p[k], p[l]);
      assert Keeps(g, q[k - i], q[l - i]);
    }
  }

  /** Then there is no deepest chain: every number is exceeded. */
  lemma NoDeepest(g: Graph, root: string, n: nat)
    requires CostlyFrom(g, root)
    ensures exists t :: ChainOk(g, root, t) && Cost(g, t) > n
  {
    hide ChainOk, KeepsFrom, IsWalk;
    var p, i: nat :| Returns(g, root, p, i) && KeepsFrom(g, p, i);
    WalkParts(g, p, i);
    var t := RoundAndRound(g, p[i..], n + 1);
    var u := WalkBack(g, p[..i + 1], t);
  }

  /** Where the root reaches a recursion that keeps a frame the figure is too small. */
  lemma FigureWrong(g: Graph, root: string)
    ensures CostlyFrom(g, root) ==> !IsDeepest(g, root, Figure(g, root).total)
  {
    hide ChainOk, CostlyFrom, Figure;
    if CostlyFrom(g, root) {
      NoDeepest(g, root, Figure(g, root).total);
    }
  }

  /** Every recursion the root leads to keeps a frame. */
  ghost predicate AllCostly(g: Graph, root: string) {
    forall p, i: nat :: Returns(g, root, p, i) ==> KeepsFrom(g, p, i)
  }

  /** When the figure is right: exactly if the root reaches no recursion, unless one it reaches keeps no frame. */
  lemma FigureRightIff(g: Graph, root: string)
    requires AllCostly(g, root)
    ensures IsDeepest(g, root, Figure(g, root).total) <==> !RecursiveFrom(g, root)
  {
    hide Figure, IsDeepest, Returns, KeepsFrom;
    FigureRight(g, root);
    FigureWrong(g, root);
  }

  // ---------------------------------------------------------------- the figures remembered

  /** Every known function a remembered one leads to is remembered or still on the stack. */
  ghost predicate Closed(g: Graph, memo: map<string, Answer>, onstack: set<string>) {
    forall s, c :: s in memo && Leads(g, s, c) ==> c in memo || c in onstack
  }

  lemma {:induction false} WalkCloses(g: Graph, onstack: set<string>, memo: map<string, Answer>, sym: string)
    requires Closed(g, memo, onstack)
    ensures var w := Walk(g, onstack, memo, sym);
      && Closed(g, w.memo, onstack) && memo.Keys <= w.memo.Keys
      && (sym in g.frames ==> sym in w.memo || sym in onstack)
    decreases |g.frames.Keys - onstack|, 0, 0
  {
    if sym !in memo && sym !in onstack && sym in g.frames {
      hide WalkAll, Callees;
      Smaller(g.frames.Keys, onstack, sym);
      var on := onstack + {sym};
      var calls, tails := Callees(g.calls, sym), Callees(g.tails, sym);
      var best := WalkAll(g, on, memo, calls, Answer(0, []));
      AllClose(g, on, memo, calls, Answer(0, []));
      AllClose(g, on, best.memo, tails, UnderFrame(g, sym, best.a));
    }
  }

  lemma {:induction false} AllClose(g: Graph, onstack: set<string>, memo: map<string, Answer>, cs: seq<string>,
                                    best: Answer)
    requires Closed(g, memo, onstack)
    ensures var w := WalkAll(g, onstack, memo, cs, best);
      && Closed(g, w.memo, onstack) && memo.Keys <= w.memo.Keys
      && forall c :: c in cs && c in g.frames ==> c in w.memo || c in onstack
    decreases |g.frames.Keys - onstack|, 1, |cs|
  {
    if cs != [] {
      hide Walk, Closed;
      var init, c := cs[..|cs| - 1], cs[|cs| - 1];
      AllClose(g, onstack, memo, init, best);
      WalkCloses(g, onstack, WalkAll(g, onstack, memo, init, best).memo, c);
      assert cs == init + [c];
    }
  }

  /** What the walk from a root remembers. */
  function Remembered(g: Graph, root: string): (m: map<string, Answer>) { Walk(g, {}, map[], root).memo }

  /** A function's figure covers each of its calls and jumps, by the figures remembered for those. */
  ghost predicate Settled(g: Graph, memo: map<string, Answer>, s: string)
    requires s in memo
  {
    && s in g.frames && memo[s].total >= g.frames[s]
    && (forall c :: c in memo && c in Callees(g.calls, s) ==> memo[s].total >= g.frames[s] + memo[c].total)
    && (forall c :: c in memo && c in Callees(g.tails, s) ==> memo[s].total >= memo[c].total)
  }

  lemma {:induction false} SettledBounds(g: Graph, memo: map<string, Answer>, sym: string, t: Chain)
    requires Closed(g, memo, {}) && (forall s :: s in memo ==> Settled(g, memo, s)) && sym in memo
    requires ChainOk(g, sym, t)
    ensures Cost(g, t) <= memo[sym].total
    decreases t
  {
    assert Settled(g, memo, sym);
    match t
    case Call(_, next) =>
      if !next.Stop? {
        var c :| c in Callees(g.calls, sym) && ChainOk(g, c, next);
        assert c in g.frames ==> Leads(g, sym, c);
        if c in memo { SettledBounds(g, memo, c, next); }
      }
    case Jump(_, next) =>
      var c :| c in Callees(g.tails, sym) && ChainOk(g, c, next);
      assert c in g.frames ==> Leads(g, sym, c);
      if c in memo { SettledBounds(g, memo, c, next); }
    case _ =>
  }

  lemma DeepestSettles(g: Graph, memo: map<string, Answer>, s: string)
    requires MemoExplained(g, memo) && s in memo && IsDeepest(g, s, memo[s].total)
    ensures Settled(g, memo, s)
  {
    hide Explains, Framed;
    assert ChainOk(g, s, Call(s, Stop)) && Cost(g, Call(s, Stop)) == g.frames[s];
    forall c | c in memo && c in Callees(g.calls, s) ensures memo[s].total >= g.frames[s] + memo[c].total {
      var t :| Explains(g, c, memo[c], t);
      ExplainsMeans(g, c, memo[c], t);
      assert ChainOk(g, s, Call(s, t));
    }
    forall c | c in memo && c in Callees(g.tails, s) ensures memo[s].total >= memo[c].total {
      var t :| Explains(g, c, memo[c], t);
      ExplainsMeans(g, c, memo[c], t);
      assert ChainOk(g, s, Jump(s, t));
    }
  }

  /**
    On every graph, with whatever recursion: all the figures the walk remembers are right exactly
    when each covers its own calls and jumps, and the root's is among them.
   */
  lemma RememberedRightIff(g: Graph, root: string)
    ensures var m := Remembered(g, root);
      && (root in g.frames ==> root in m && m[root] == Figure(g, root))
      && ((forall s :: s in m ==> IsDeepest(g, s, m[s].total)) <==> forall s :: s in m ==> Settled(g, m, s))
  {
    WalkRemembers(g, {}, map[], root);
    WalkCloses(g, {}, map[], root);
    WalkExplained(g, {}, map[], root);
    var m := Remembered(g, root);
    hide Walk, MemoExplained, Closed, ChainOk, Settled, IsDeepest;
    if forall s :: s in m ==> IsDeepest(g, s, m[s].total) {
      forall s | s in m ensures Settled(g, m, s) {
        DeepestSettles(g, m, s);
      }
    }
    if forall s :: s in m ==> Settled(g, m, s) {
      forall s | s in m ensures IsDeepest(g, s, m[s].total) {
        SettledDeepest(g, m, s);
      }
    }
  }

  lemma SettledDeepest(g: Graph, memo: map<string, Answer>, s: string)
    requires Closed(g, memo, {}) && (forall s :: s in memo ==> Settled(g, memo, s)) && s in memo
    ensures IsDeepest(g, s, memo[s].total)
  {
    hide ChainOk, Closed, Settled;
    forall t | ChainOk(g, s, t) ensures Cost(g, t) <= memo[s].total {
      SettledBounds(g, memo, s, t);
    }
  }

  lemma WalkRemembers(g: Graph, onstack: set<string>, memo: map<string, Answer>, sym: string)
    ensures var w := Walk(g, onstack, memo, sym);
      sym in g.frames && sym !in onstack ==> sym in w.memo && w.memo[sym] == w.a
  {
    hide WalkBody;
  }

  // ---------------------------------------------------------------- a recursion that keeps none

  /** Where no function has a frame no chain costs anything. */
  lemma {:induction false} FreeCosts(g: Graph, sym: string, t: Chain)
    requires (forall s :: s in g.frames ==> g.frames[s] == 0) && ChainOk(g, sym, t)
    ensures Cost(g, t) == 0
    decreases t
  {
    match t
    case Call(_, next) =>
      if !next.Stop? {
        var c :| c in Callees(g.calls, sym) && ChainOk(g, c, next);
        FreeCosts(g, c, next);
      }
    case Jump(_, next) =>
      var c :| c in Callees(g.tails, sym) && ChainOk(g, c, next);
      FreeCosts(g, c, next);
    case _ =>
  }

  const SPIN: Graph := Graph(map["a" := 0], map["a" := ["a"]], map[])

  /** A recursion that keeps no frame may do no harm: a function without a frame that calls itself. */
  lemma FreeRecursionRight()
    ensures RecursiveFrom(SPIN, "a") && IsDeepest(SPIN, "a", Figure(SPIN, "a").total)
  {
    assert Callees(SPIN.calls, "a") == ["a"];
    assert Leads(SPIN, "a", "a");
    assert Returns(SPIN, "a", ["a", "a"], 0);
    hide Figure, ChainOk;
    forall t | ChainOk(SPIN, "a", t) ensures Cost(SPIN, t) == 0 {
      FreeCosts(SPIN, "a", t);
    }
  }

  /** r calls a, then x; a calls b, then c; b calls a; x calls b. */
  const SHORT: Graph := Graph(
    map["r" := 0, "a" := 0, "b" := 0, "c" := 10, "x" := 100],
    map["r" := ["a", "x"], "a" := ["b", "c"], "b" := ["a"], "x" := ["b"]], map[])

  lemma ShortCalls()
    ensures SHORT.frames.Keys == {"r", "a", "b", "c", "x"}
    ensures SHORT.frames["r"] == 0 && SHORT.frames["a"] == 0 && SHORT.frames["b"] == 0
    ensures SHORT.frames["c"] == 10 && SHORT.frames["x"] == 100
    ensures Callees(SHORT.calls, "r") == ["a", "x"] && Callees(SHORT.calls, "a") == ["b", "c"]
    ensures Callees(SHORT.calls, "b") == ["a"] && Callees(SHORT.calls, "c") == [] && Callees(SHORT.calls, "x") == ["b"]
    ensures forall s :: Callees(SHORT.tails, s) == []
  {
  }

  /** A first visit to a function that jumps nowhere. */
  lemma FirstVisit(g: Graph, onstack: set<string>, memo: map<string, Answer>, sym: string)
    requires sym in g.frames && sym !in memo && sym !in onstack && Callees(g.tails, sym) == []
    ensures var best := WalkAll(g, onstack + {sym}, memo, Callees(g.calls, sym), Answer(0, []));
      var a := UnderFrame(g, sym, best.a);
      Walk(g, onstack, memo, sym) == Walked(a, best.memo[sym := a])
  {
    var best := WalkAll(g, onstack + {sym}, memo, Callees(g.calls, sym), Answer(0, []));
    NoCallee(g, onstack + {sym}, best.memo, UnderFrame(g, sym, best.a));
    hide WalkAll;
  }

  lemma NoCallee(g: Graph, onstack: set<string>, memo: map<string, Answer>, best: Answer)
    ensures WalkAll(g, onstack, memo, [], best) == Walked(best, memo)
  {
  }

  lemma LastCallee(g: Graph, onstack: set<string>, memo: map<string, Answer>, cs: seq<string>, c: string, best: Answer)
    ensures var init := WalkAll(g, onstack, memo, cs, best);
      var sub := Walk(g, onstack, init.memo, c);
      WalkAll(g, onstack, memo, cs + [c], best) == Walked(Deeper(init.a, sub.a), sub.memo)
  {
    hide Walk;
    assert (cs + [c])[..|cs|] == cs;
  }

  /** b is first met below a, where going back to a is cut off: 0 is remembered for it. */
  lemma ShortB()
    ensures var w := Walk(SHORT, {"r", "a"}, map[], "b"); w.a.total == 0 && w.memo.Keys == {"b"} && w.memo["b"] == w.a
  {
    ShortCalls();
    var none := Answer(0, []);
    FirstVisit(SHORT, {"r", "a"}, map[], "b");
    var on := {"r", "a"} + {"b"};
    LastCallee(SHORT, on, map[], [], "a", none);
    NoCallee(SHORT, on, map[], none);
    assert [] + ["a"] == ["a"];
    assert Walk(SHORT, on, map[], "a").a.total == 0;
  }

  lemma ShortC(memo: map<string, Answer>)
    requires "c" !in memo
    ensures var w := Walk(SHORT, {"r", "a"}, memo, "c"); w.a.total == 10 && w.memo == memo["c" := w.a]
  {
    ShortCalls();
    FirstVisit(SHORT, {"r", "a"}, memo, "c");
    NoCallee(SHORT, {"r", "a"} + {"c"}, memo, Answer(0, []));
  }

  lemma ShortA()
    ensures var w := Walk(SHORT, {"r"}, map[], "a");
      w.a.total == 10 && w.memo.Keys == {"a", "b", "c"} && w.memo["b"].total == 0
  {
    ShortCalls();
    var none, on := Answer(0, []), {"r"} + {"a"};
    assert on == {"r", "a"};
    FirstVisit(SHORT, {"r"}, map[], "a");
    NoCallee(SHORT, on, map[], none);
    LastCallee(SHORT, on, map[], [], "b", none);
    LastCallee(SHORT, on, map[], ["b"], "c", none);
    assert [] + ["b"] == ["b"] && ["b"] + ["c"] == ["b", "c"];
    ShortB();
    hide Walk, WalkAll, SHORT;
    ShortC(Walk(SHORT, on, map[], "b").memo);
  }

  lemma ShortX(memo: map<string, Answer>)
    requires "b" in memo && memo["b"].total == 0 && "x" !in memo
    ensures Walk(SHORT, {"r"}, memo, "x").a.total == 100
  {
    ShortCalls();
    var none, on := Answer(0, []), {"r"} + {"x"};
    FirstVisit(SHORT, {"r"}, memo, "x");
    NoCallee(SHORT, on, memo, none);
    LastCallee(SHORT, on, memo, [], "b", none);
    assert [] + ["b"] == ["b"];
    assert Walk(SHORT, on, memo, "b").a.total == 0;
  }

  /** The figure for r is 100. */
  lemma ShortFigure()
    ensures Figure(SHORT, "r").total == 100
  {
    ShortCalls();
    var none, on := Answer(0, []), {} + {"r"};
    assert on == {"r"};
    FirstVisit(SHORT, {}, map[], "r");
    NoCallee(SHORT, on, map[], none);
    LastCallee(SHORT, on, map[], [], "a", none);
    LastCallee(SHORT, on, map[], ["a"], "x", none);
    assert [] + ["a"] == ["a"] && ["a"] + ["x"] == ["a", "x"];
    hide Walk, WalkAll;
    ShortA();
    ShortX(Walk(SHORT, on, map[], "a").memo);
  }

  /** Nothing leads to r, only r leads to x, and only x keeps a frame. */
  predicate OnceStep(s: string, c: string) {
    c != "r" && (c == "x" ==> s == "r") && (Keeps(SHORT, s, c) ==> s == "x")
  }

  lemma ShortLeads(s: string, c: string)
    ensures Leads(SHORT, s, c) ==> OnceStep(s, c)
  {
    ShortCalls();
    hide SHORT, Callees;
    if s !in {"r", "a", "b", "x"} { }
  }

  /** Only x keeps a frame, and nothing comes back to x. */
  lemma ShortIsFree()
    ensures !CostlyFrom(SHORT, "r")
  {
    forall p, i: nat ensures !(Returns(SHORT, "r", p, i) && KeepsFrom(SHORT, p, i)) {
      if Returns(SHORT, "r", p, i) {
        NoStepKeeps(p, i);
      }
    }
  }

  ghost predicate OnceRound(p: seq<string>) {
    forall j, l :: 0 <= j < |p| - 1 && l == j + 1 ==> OnceStep(p[j], p[l])
  }

  lemma WalkOnceRound(p: seq<string>)
    requires IsWalk(SHORT, p)
    ensures OnceRound(p)
  {
    hide Leads, OnceStep;
    forall j, l | 0 <= j < |p| - 1 && l == j + 1 ensures OnceStep(p[j], p[l]) {
      ShortLeads(p[j], p[l]);
    }
  }

  lemma NoStepKeeps(p: seq<string>, i: nat)
    requires Returns(SHORT, "r", p, i)
    ensures !KeepsFrom(SHORT, p, i)
  {
    WalkOnceRound(p);
    hide IsWalk, Keeps, SHORT;
    NotFirst(p, |p| - 1);
    forall k, l | i <= k < |p| - 1 && l == k + 1 ensures !Keeps(SHORT, p[k], p[l]) {
      assert OnceStep(p[k], p[l]);
      XIsSecond(p, k);
      XIsSecond(p, |p| - 1);
    }
  }

  lemma NotFirst(p: seq<string>, l: nat)
    requires 0 < l < |p| && OnceRound(p)
    ensures p[l] != "r"
  {
    var j := l - 1;
    assert OnceStep(p[j], p[l]);
  }

  /** x stands second on a walk from r, or nowhere. */
  lemma XIsSecond(p: seq<string>, k: nat)
    requires k < |p| && p[0] == "r" && OnceRound(p)
    ensures p[k] == "x" ==> k == 1
  {
    if p[k] == "x" {
      var j := k - 1;
      assert OnceStep(p[j], p[k]);
      if j > 0 {
        NotFirst(p, j);
      }
    }
  }

  /** It may do harm too: the figure is 100, and r, x, b, a, c together need 110. */
  lemma FreeRecursionWrong()
    ensures Figure(SHORT, "r").total == 100 && !CostlyFrom(SHORT, "r")
    ensures exists t :: ChainOk(SHORT, "r", t) && Followed(t) && Cost(SHORT, t) == 110
  {
    ShortFigure();
    ShortIsFree();
    ShortCalls();
    hide Figure, CostlyFrom;
    var c := Call("c", Stop);
    assert ChainOk(SHORT, "c", c) && Cost(SHORT, c) == 10;
    hide ChainOk, Callees, SHORT;
    CallOn(SHORT, "a", "c", c);
    CallOn(SHORT, "b", "a", Call("a", c));
    CallOn(SHORT, "x", "b", Call("b", Call("a", c)));
    CallOn(SHORT, "r", "x", Call("x", Call("b", Call("a", c))));
  }

  lemma CallOn(g: Graph, s: string, c: string, t: Chain)
    requires s in g.frames && c in Callees(g.calls, s) && ChainOk(g, c, t)
    ensures ChainOk(g, s, Call(s, t)) && Cost(g, Call(s, t)) == g.frames[s] + Cost(g, t)
  {
  }
}
