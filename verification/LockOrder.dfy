/**
  The lock-order checker of tools/check-lock-order.py: recorded acquisition edges, the
  explicit-stack search for cycles of at most seven locks, and what an empty answer means.
 */
module LockOrder {

  const MAX_LOCKS: nat := 7

  /** One observed "acquired `to` while holding `from`". */
  datatype LockEdge = LockEdge(from: string, to: string, fileLine: string, func: string, chain: string)

  /** A reported cycle: its nodes, the first repeated at the end, and the edges between them. */
  datatype Cycle = Cycle(nodes: seq<string>, edges: seq<LockEdge>)

  // ---------------------------------------------------------------- string order

  /** Python's `<` on str: lexicographic by code point. */
  predicate Less(a: string, b: string) {
    if b == [] then false
    else if a == [] then true
    else a[0] < b[0] || (a[0] == b[0] && Less(a[1..], b[1..]))
  }

  lemma LessIrreflexive(a: string)
    ensures !Less(a, a)
  {
  }

  lemma {:induction false} LessTransitive(a: string, b: string, c: string)
    requires Less(a, b) && Less(b, c)
    ensures Less(a, c)
  {
    if a != [] && a[0] == b[0] && b[0] == c[0] {
      LessTransitive(a[1..], b[1..], c[1..]);
    }
  }

  lemma {:induction false} LessTotal(a: string, b: string)
    ensures a == b || Less(a, b) || Less(b, a)
  {
    if a != [] && b != [] && a[0] == b[0] {
      LessTotal(a[1..], b[1..]);
      assert a == [a[0]] + a[1..];
      assert b == [b[0]] + b[1..];
    }
  }

  /** At the first place they differ the smaller one ends or has the smaller character. */
  lemma {:induction false} LessMeans(a: string, b: string)
    ensures Less(a, b) <==>
            exists k :: 0 <= k <= |a| && k < |b| && a[..k] == b[..k] && (k == |a| || a[k] < b[k])
    decreases |a|
  {
    if a != [] && b != [] && a[0] == b[0] {
      LessMeans(a[1..], b[1..]);
      if Less(a, b) {
        var k :| 0 <= k <= |a[1..]| && k < |b[1..]| && a[1..][..k] == b[1..][..k]
          && (k == |a[1..]| || a[1..][k] < b[1..][k]);
        assert a[..k + 1] == [a[0]] + a[1..][..k] && b[..k + 1] == [b[0]] + b[1..][..k];
        var n := k + 1;
        assert n == |a| || a[n] < b[n];
      }
      if k :| 0 <= k <= |a| && k < |b| && a[..k] == b[..k] && (k == |a| || a[k] < b[k]) {
        assert k > 0;
        var n := k - 1;
        assert a[1..][..n] == a[..k][1..] && b[1..][..n] == b[..k][1..];
        assert n == |a[1..]| || a[1..][n] < b[1..][n];
      }
    } else if a == [] && b != [] {
      var k := 0;
      assert a[..k] == b[..k];
    } else if a != [] && b != [] {
      if a[0] < b[0] {
        var k := 0;
        assert a[..k] == b[..k];
      }
      forall k | 0 < k <= |a| && k < |b| ensures a[..k] != b[..k] {
        assert a[..k][0] != b[..k][0];
      }
    }
  }

  // ---------------------------------------------------------------- the graph, declaratively

  /** The acquisition graph: each ordered pair of locks with the edge first recorded for it. */
  type Graph = map<(string, string), LockEdge>

  /** The graph of the recorded edges that touch no ignored lock. */
  function GraphOf(edges: seq<LockEdge>, ignore: set<string>): (g: Graph) {
    if edges == [] then map[]
    else
      var g := GraphOf(edges[..|edges| - 1], ignore);
      var e := edges[|edges| - 1];
      if e.from in ignore || e.to in ignore || (e.from, e.to) in g then g else g[(e.from, e.to) := e]
  }

  ghost predicate FirstWitness(edges: seq<LockEdge>, ignore: set<string>, a: string, b: string, e: LockEdge) {
    && a !in ignore && b !in ignore
    && exists n :: 0 <= n < |edges| && edges[n] == e && e.from == a && e.to == b
         && forall m :: 0 <= m < n ==> !(edges[m].from == a && edges[m].to == b)
  }

  /** The graph holds exactly the pairs some kept edge joins. */
  lemma {:induction false} GraphOfMeaning(edges: seq<LockEdge>, ignore: set<string>, a: string, b: string)
    ensures (a, b) in GraphOf(edges, ignore)
       <==> a !in ignore && b !in ignore && exists e :: e in edges && e.from == a && e.to == b
  {
    if edges != [] {
      var init := edges[..|edges| - 1];
      GraphOfMeaning(init, ignore, a, b);
      assert edges == init + [edges[|edges| - 1]];
    }
  }

  /** Each pair carries the edge recorded first for it. */
  lemma {:induction false} GraphOfIsFirst(edges: seq<LockEdge>, ignore: set<string>, a: string, b: string)
    requires (a, b) in GraphOf(edges, ignore)
    ensures FirstWitness(edges, ignore, a, b, GraphOf(edges, ignore)[(a, b)])
  {
    var init := edges[..|edges| - 1];
    GraphOfMeaning(init, ignore, a, b);
    if (a, b) in GraphOf(init, ignore) {
      GraphOfIsFirst(init, ignore, a, b);
      var n :| 0 <= n < |init| && init[n] == GraphOf(init, ignore)[(a, b)] && init[n].from == a && init[n].to == b
        && forall m :: 0 <= m < n ==> !(init[m].from == a && init[m].to == b);
      assert edges[n] == init[n] && forall m :: 0 <= m < n ==> edges[m] == init[m];
    } else {
      assert forall m :: 0 <= m < |init| ==> edges[m] == init[m] && init[m] in init;
    }
  }

  ghost predicate Distinct<T>(s: seq<T>) {
    forall i, j :: 0 <= i < j < |s| ==> s[i] != s[j]
  }

  ghost predicate IsPath(g: Graph, p: seq<string>) {
    && p != []
    && Distinct(p)
    && forall i, j :: 0 <= i < |p| - 1 && j == i + 1 ==> (p[i], p[j]) in g
  }

  /** A simple cycle: two or more distinct locks, each acquired under the one before it. */
  ghost predicate IsCycle(g: Graph, c: seq<string>) {
    |c| >= 2 && IsPath(g, c) && (c[|c| - 1], c[0]) in g
  }

  function Rotate<T>(c: seq<T>, r: nat): (s: seq<T>)
    requires r <= |c|
  {
    c[r..] + c[..r]
  }

  /** `es` joins consecutive nodes of `nodes`. */
  ghost predicate Joins(g: Graph, nodes: seq<string>, es: seq<LockEdge>) {
    && |nodes| == |es| + 1
    && forall i, j :: 0 <= i < |es| && j == i + 1 ==> (nodes[i], nodes[j]) in g && es[i] == g[(nodes[i], nodes[j])]
  }

  /** A report's nodes without the repeated last one. */
  function Open(c: Cycle): (r: seq<string>) {
    if c.nodes == [] then [] else c.nodes[..|c.nodes| - 1]
  }

  /** What one report must be: a closed simple cycle with its edges in order. */
  ghost predicate GoodReport(g: Graph, r: Cycle) {
    && IsCycle(g, Open(r))
    && |Open(r)| <= MAX_LOCKS
    && r.nodes == Open(r) + [Open(r)[0]]
    && Joins(g, r.nodes, r.edges)
  }

  /** `c` is among the reports, up to where the cycle is entered. */
  ghost predicate Listed(cycles: seq<Cycle>, c: seq<string>) {
    exists k, r :: 0 <= k < |cycles| && 0 <= r <= |c| && Open(cycles[k]) == Rotate(c, r)
  }

  ghost predicate NoCycleUpTo(g: Graph, n: nat) {
    forall c :: IsCycle(g, c) ==> |c| > n
  }

  // ---------------------------------------------------------------- a cycle with its least lock first

  ghost predicate LeastFirst(p: seq<string>) {
    p != [] && forall i :: 0 < i < |p| ==> Less(p[0], p[i])
  }

  /** What the search looks for from one start: a cycle entered at its least lock. */
  ghost predicate Target(g: Graph, start: string, p: seq<string>) {
    IsCycle(g, p) && |p| <= MAX_LOCKS && p[0] == start && LeastFirst(p)
  }

  lemma LeastIndex(c: seq<string>) returns (r: nat)
    requires c != [] && Distinct(c)
    ensures r < |c| && forall i :: 0 <= i < |c| && i != r ==> Less(c[r], c[i])
  {
    r := 0;
    for n := 1 to |c|
      invariant r < n
      invariant forall i :: 0 <= i < n && i != r ==> Less(c[r], c[i])
    {
      LessTotal(c[r], c[n]);
      if Less(c[n], c[r]) {
        forall i | 0 <= i < n ensures Less(c[n], c[i]) {
          if i != r { LessTransitive(c[n], c[r], c[i]); }
        }
        r := n;
      }
    }
  }

  /** Rotating a cycle gives a cycle. */
  lemma RotateIsCycle(g: Graph, c: seq<string>, r: nat)
    requires IsCycle(g, c) && r < |c|
    ensures IsCycle(g, Rotate(c, r))
  {
    var s, k := Rotate(c, r), |c| - r;
    assert forall i :: 0 <= i < |s| ==> s[i] == if i < k then c[r + i] else c[i - k];
    forall i, j | 0 <= i < |s| - 1 && j == i + 1 ensures (s[i], s[j]) in g {
      if i < k - 1 {
        assert (c[r + i], c[r + i + 1]) in g;
      } else if i >= k {
        assert (c[i - k], c[i - k + 1]) in g;
      }
    }
    assert r > 0 ==> (c[r - 1], c[r]) in g;
  }

  /** Every short cycle has a rotation the search targets. */
  lemma RotatesToTarget(g: Graph, c: seq<string>) returns (r: nat)
    requires IsCycle(g, c) && |c| <= MAX_LOCKS
    ensures r < |c| && Target(g, c[r], Rotate(c, r))
  {
    r := LeastIndex(c);
    RotateIsCycle(g, c, r);
    var s := Rotate(c, r);
    forall i | 0 < i < |s| ensures Less(s[0], s[i]) {
      assert s[i] == c[if i < |c| - r then r + i else i - (|c| - r)];
    }
  }

  /** Two least-first lists that are rotations of each other are the same list. */
  lemma RotationUnique(p: seq<string>, q: seq<string>, r: nat)
    requires LeastFirst(p) && LeastFirst(q) && r <= |p| && q == Rotate(p, r)
    ensures p == q
  {
    if 0 < r < |p| {
      assert q[0] == p[r] && q[|p| - r] == p[0];
      LessTransitive(p[0], p[r], p[0]);
      LessIrreflexive(p[0]);
    }
  }

  // ---------------------------------------------------------------- adjacency

  /** adj[from] lists, in insertion order, the first edge to each distinct lock. */
  type Adjacency = map<string, seq<LockEdge>>

  ghost predicate LeadsTo(adj: Adjacency, a: string, b: string) {
    a in adj && exists i :: 0 <= i < |adj[a]| && adj[a][i].to == b
  }

  ghost predicate AdjacencyOk(g: Graph, adj: Adjacency) {
    && (forall a, i :: a in adj && 0 <= i < |adj[a]| ==>
          adj[a][i].from == a && (a, adj[a][i].to) in g && g[(a, adj[a][i].to)] == adj[a][i])
    && (forall a, b :: (a, b) in g ==> LeadsTo(adj, a, b))
  }

  function Successors(adj: Adjacency, a: string): (r: seq<LockEdge>) {
    if a in adj then adj[a] else []
  }

  lemma AddEdgeOk(g: Graph, adj: Adjacency, e: LockEdge)
    requires AdjacencyOk(g, adj) && (e.from, e.to) !in g
    ensures AdjacencyOk(g[(e.from, e.to) := e], adj[e.from := Successors(adj, e.from) + [e]])
  {
    var g', more := g[(e.from, e.to) := e], Successors(adj, e.from) + [e];
    var adj': Adjacency := adj[e.from := more];
    forall a, b | (a, b) in g' ensures LeadsTo(adj', a, b) {
      if (a, b) in g {
        assert LeadsTo(adj, a, b);
        var i :| 0 <= i < |adj[a]| && adj[a][i].to == b;
        assert adj'[a][i].to == b;
      } else {
        assert adj'[a][|more| - 1] == e;
      }
    }
  }

  method BuildAdjacency(edges: seq<LockEdge>, ignore: set<string>) returns (adj: Adjacency)
    ensures AdjacencyOk(GraphOf(edges, ignore), adj)
  {
    adj := map[];
    for n := 0 to |edges|
      invariant AdjacencyOk(GraphOf(edges[..n], ignore), adj)
    {
      var e := edges[n];
      ghost var g := GraphOf(edges[..n], ignore);
      assert edges[..n + 1][..n] == edges[..n];
      if e.from !in ignore && e.to !in ignore {
        var row := Successors(adj, e.from);
        if forall i :: 0 <= i < |row| ==> row[i].to != e.to {
          assert LeadsTo(adj, e.from, e.to) <== (e.from, e.to) in g;
          AddEdgeOk(g, adj, e);
          adj := adj[e.from := row + [e]];
        }
      }
    }
    assert edges[..|edges|] == edges;
  }

  /** sorted(adj.keys()) */
  method SortedKeys(adj: Adjacency) returns (nodes: seq<string>)
    ensures forall a :: a in nodes <==> a in adj
    ensures forall i, j :: 0 <= i < j < |nodes| ==> Less(nodes[i], nodes[j])
  {
    nodes := [];
    var todo := adj.Keys;
    while todo != {}
      invariant todo <= adj.Keys
      invariant forall a :: a in nodes <==> a in adj && a !in todo
      invariant forall i, j :: 0 <= i < j < |nodes| ==> Less(nodes[i], nodes[j])
    {
      var a :| a in todo;
      nodes := InsertSorted(nodes, a);
      todo := todo - {a};
    }
  }

  method InsertSorted(s: seq<string>, a: string) returns (r: seq<string>)
    requires a !in s && forall i, j :: 0 <= i < j < |s| ==> Less(s[i], s[j])
    ensures forall x :: x in r <==> x in s || x == a
    ensures forall i, j :: 0 <= i < j < |r| ==> Less(r[i], r[j])
  {
    var n := 0;
    while n < |s| && Less(s[n], a)
      invariant n <= |s| && forall i :: 0 <= i < n ==> Less(s[i], a)
    {
      n := n + 1;
    }
    forall i | n <= i < |s| ensures Less(a, s[i]) {
      LessTotal(a, s[n]);
      assert s[n] in s;
      if n < i { LessTransitive(a, s[n], s[i]); }
    }
    r := s[..n] + [a] + s[n..];
    forall x | x in s ensures x in r {
      var i :| 0 <= i < |s| && s[i] == x;
      assert r[if i < n then i else i + 1] == x;
    }
    assert r[n] == a;
  }

  // ---------------------------------------------------------------- the search

  /** One stack item of the depth-first search. */
  datatype Entry = Entry(curr: string, path: seq<string>, edges: seq<LockEdge>)

  ghost predicate EntryOk(g: Graph, start: string, e: Entry) {
    && 1 <= |e.path| <= MAX_LOCKS
    && IsPath(g, e.path)
    && e.path[0] == start
    && LeastFirst(e.path)
    && e.curr == e.path[|e.path| - 1]
    && Joins(g, e.path, e.edges)
  }

  predicate Closes(start: string, path: seq<string>, next: string) {
    next == start && |path| >= 2
  }

  predicate Pushes(start: string, path: seq<string>, next: string) {
    !Closes(start, path, next) && next !in path && Less(start, next) && |path| < MAX_LOCKS
  }

  /** Size of the search tree below one path; each pop of the stack removes exactly its root. */
  ghost function TreeSize(adj: Adjacency, start: string, path: seq<string>): nat
    requires 1 <= |path| <= MAX_LOCKS
    decreases MAX_LOCKS - |path|, 1, 0
  {
    1 + ForestSize(adj, start, path, Successors(adj, path[|path| - 1]))
  }

  ghost function ForestSize(adj: Adjacency, start: string, path: seq<string>, items: seq<LockEdge>): nat
    requires 1 <= |path| <= MAX_LOCKS
    decreases MAX_LOCKS - |path|, 0, |items|
  {
    if items == [] then 0
    else
      (if Pushes(start, path, items[0].to) then TreeSize(adj, start, path + [items[0].to]) else 0)
      + ForestSize(adj, start, path, items[1..])
  }

  ghost predicate StackOk(g: Graph, start: string, stack: seq<Entry>) {
    forall k :: 0 <= k < |stack| ==> EntryOk(g, start, stack[k])
  }

  ghost function StackSize(adj: Adjacency, start: string, stack: seq<Entry>): nat
    requires forall k :: 0 <= k < |stack| ==> 1 <= |stack[k].path| <= MAX_LOCKS
  {
    if stack == [] then 0
    else StackSize(adj, start, stack[..|stack| - 1]) + TreeSize(adj, start, stack[|stack| - 1].path)
  }

  /** `c` reports the cycle `p`, entered at its least lock. */
  ghost predicate ReportOf(g: Graph, c: Cycle, p: seq<string>) {
    Target(g, if p == [] then "" else p[0], p) && c.nodes == p + [p[0]] && Joins(g, c.nodes, c.edges)
  }

  /** `found` lists the cycles behind the reports; the set that filters repeats holds exactly those. */
  ghost predicate ReportsOk(g: Graph, cycles: seq<Cycle>, found: seq<seq<string>>, seen: set<seq<string>>) {
    && |found| == |cycles|
    && (forall k :: 0 <= k < |cycles| ==> ReportOf(g, cycles[k], found[k]))
    && (forall p :: p in seen <==> p in found)
    && Distinct(found)
  }

  /** Some stack entry still leads to `p`. */
  ghost predicate OnStack(stack: seq<Entry>, p: seq<string>) {
    exists k :: 0 <= k < |stack| && stack[k].path <= p
  }

  /** min(range(len(path)), key=...): the first index of a least element. */
  method MinIndex(path: seq<string>) returns (idx: nat)
    requires path != []
    ensures idx < |path|
    ensures forall i :: 0 <= i < |path| ==> !Less(path[i], path[idx])
    ensures forall i :: 0 <= i < idx ==> Less(path[idx], path[i])
  {
    idx := 0;
    LessIrreflexive(path[0]);
    for n := 1 to |path|
      invariant idx < n
      invariant forall i :: 0 <= i < n ==> !Less(path[i], path[idx])
      invariant forall i :: 0 <= i < idx ==> Less(path[idx], path[i])
    {
      if Less(path[n], path[idx]) {
        forall i | 0 <= i < n ensures Less(path[n], path[i]) {
          LessTotal(path[i], path[idx]);
          if path[i] != path[idx] { LessTransitive(path[n], path[idx], path[i]); }
        }
        forall i | 0 <= i < n ensures !Less(path[i], path[n]) {
          if Less(path[i], path[n]) { LessTransitive(path[i], path[n], path[i]); LessIrreflexive(path[i]); }
        }
        LessIrreflexive(path[n]);
        idx := n;
      }
    }
  }

  lemma ExtendOk(g: Graph, start: string, top: Entry, e: LockEdge)
    requires EntryOk(g, start, top) && (top.curr, e.to) in g && g[(top.curr, e.to)] == e
    requires Pushes(start, top.path, e.to)
    ensures EntryOk(g, start, Entry(e.to, top.path + [e.to], top.edges + [e]))
  {
  }

  lemma CloseOk(g: Graph, start: string, top: Entry, e: LockEdge)
    requires EntryOk(g, start, top) && (top.curr, e.to) in g && g[(top.curr, e.to)] == e
    requires Closes(start, top.path, e.to)
    ensures ReportOf(g, Cycle(top.path + [start], top.edges + [e]), top.path)
  {
  }

  /** Whatever an entry leads to, one of its successors closes or continues. */
  lemma SuccessorLeads(g: Graph, adj: Adjacency, start: string, top: Entry, p: seq<string>) returns (i: nat)
    requires AdjacencyOk(g, adj) && EntryOk(g, start, top)
    requires Target(g, start, p) && top.path <= p
    ensures i < |Successors(adj, top.curr)|
    ensures var to := Successors(adj, top.curr)[i].to;
            if p == top.path then Closes(start, top.path, to)
            else Pushes(start, top.path, to) && top.path + [to] <= p
  {
    var n := |top.path|;
    var next := if n == |p| then start else p[n];
    assert p[n - 1] == top.curr;
    assert (top.curr, next) in g by {
      if n < |p| { assert (p[n - 1], p[n]) in g; }
    }
    assert LeadsTo(adj, top.curr, next);
    i :| 0 <= i < |adj[top.curr]| && adj[top.curr][i].to == next;
    if n < |p| {
      assert forall j :: 0 <= j < n ==> top.path[j] == p[j];
      assert next !in top.path;
    }
  }

  lemma SuccessorInGraph(g: Graph, adj: Adjacency, a: string, n: nat)
    requires AdjacencyOk(g, adj) && n < |Successors(adj, a)|
    ensures var e := Successors(adj, a)[n]; (a, e.to) in g && g[(a, e.to)] == e
  {
  }

  lemma MinOfLeastFirst(path: seq<string>, idx: nat)
    requires LeastFirst(path) && idx < |path| && forall i :: 0 <= i < |path| ==> !Less(path[i], path[idx])
    ensures idx == 0
  {
    assert !Less(path[0], path[idx]);
  }

  /** What one turn of the loop over successors leaves behind. */
  ghost predicate Handled(start: string, path: seq<string>, next: string, stack: seq<Entry>, seen: set<seq<string>>) {
    && (Closes(start, path, next) ==> path in seen)
    && (Pushes(start, path, next) ==> exists k :: 0 <= k < |stack| && stack[k].path == path + [next])
  }

  lemma HandledGrows(start: string, path: seq<string>, next: string,
                     stack: seq<Entry>, seen: set<seq<string>>, stack': seq<Entry>, seen': set<seq<string>>)
    requires Handled(start, path, next, stack, seen) && stack <= stack' && seen <= seen'
    ensures Handled(start, path, next, stack', seen')
  {
    if Pushes(start, path, next) {
      var k :| 0 <= k < |stack| && stack[k].path == path + [next];
      assert stack'[k].path == path + [next];
    }
  }

  lemma HandledCovers(g: Graph, adj: Adjacency, start: string, top: Entry, p: seq<string>,
                      stack: seq<Entry>, seen: set<seq<string>>)
    requires AdjacencyOk(g, adj) && EntryOk(g, start, top)
    requires Target(g, start, p) && top.path <= p
    requires var items := Successors(adj, top.curr);
             forall j :: 0 <= j < |items| ==> Handled(start, top.path, items[j].to, stack, seen)
    ensures p in seen || OnStack(stack, p)
  {
    var i := SuccessorLeads(g, adj, start, top, p);
    assert Handled(start, top.path, Successors(adj, top.curr)[i].to, stack, seen);
  }

  lemma AddReportOk(g: Graph, start: string, top: Entry, e: LockEdge,
                    cycles: seq<Cycle>, found: seq<seq<string>>, seen: set<seq<string>>)
    requires EntryOk(g, start, top) && (top.curr, e.to) in g && g[(top.curr, e.to)] == e
    requires Closes(start, top.path, e.to) && top.path !in seen && ReportsOk(g, cycles, found, seen)
    ensures ReportsOk(g, cycles + [Cycle(top.path + [start], top.edges + [e])], found + [top.path], seen + {top.path})
  {
    CloseOk(g, start, top, e);
  }

  /** One turn of the loop over successors: report, push or pass over. */
  method Follow(ghost g: Graph, ghost adj: Adjacency, start: string, top: Entry, edge: LockEdge,
                stack0: seq<Entry>, cycles0: seq<Cycle>, ghost found0: seq<seq<string>>, seen0: set<seq<string>>)
    returns (stack: seq<Entry>, cycles: seq<Cycle>, ghost found: seq<seq<string>>, seen: set<seq<string>>)
    requires EntryOk(g, start, top) && (top.curr, edge.to) in g && g[(top.curr, edge.to)] == edge
    requires StackOk(g, start, stack0) && ReportsOk(g, cycles0, found0, seen0)
    ensures StackOk(g, start, stack) && stack0 <= stack
    ensures ReportsOk(g, cycles, found, seen) && seen0 <= seen
    ensures Handled(start, top.path, edge.to, stack, seen)
    ensures StackSize(adj, start, stack) == StackSize(adj, start, stack0)
              + if Pushes(start, top.path, edge.to) then TreeSize(adj, start, top.path + [edge.to]) else 0
  {
    hide ReportsOk, IsPath, Joins, LeastFirst, Less;
    stack, cycles, found, seen := stack0, cycles0, found0, seen0;
    if edge.to == start && |top.path| >= 2 {
      var minIdx := MinIndex(top.path);
      MinOfLeastFirst(top.path, minIdx);
      var canon := top.path[minIdx..] + top.path[..minIdx];
      assert canon == top.path;
      if canon !in seen {
        AddReportOk(g, start, top, edge, cycles, found, seen);
        seen := seen + {canon};
        cycles := cycles + [Cycle(top.path + [start], top.edges + [edge])];
        found := found + [canon];
      }
    } else if edge.to !in top.path && Less(start, edge.to) && |top.path| < MAX_LOCKS {
      stack := Push(g, adj, start, top, edge, stack);
    }
  }

  /** The `for nxt, edge in adj.get(curr, {}).items()` loop for one popped entry. */
  method Expand(ghost g: Graph, adj: Adjacency, start: string, top: Entry,
                stack0: seq<Entry>, cycles0: seq<Cycle>, ghost found0: seq<seq<string>>, seen0: set<seq<string>>)
    returns (stack: seq<Entry>, cycles: seq<Cycle>, ghost found: seq<seq<string>>, seen: set<seq<string>>)
    requires AdjacencyOk(g, adj)
    requires EntryOk(g, start, top) && StackOk(g, start, stack0)
    requires ReportsOk(g, cycles0, found0, seen0)
    ensures StackOk(g, start, stack) && stack0 <= stack
    ensures ReportsOk(g, cycles, found, seen) && seen0 <= seen
    ensures StackSize(adj, start, stack) < StackSize(adj, start, stack0) + TreeSize(adj, start, top.path)
    ensures forall p :: Target(g, start, p) && top.path <= p ==> p in seen || OnStack(stack, p)
  {
    hide ReportsOk, AdjacencyOk, Target, IsPath, Joins, LeastFirst, OnStack, Less, Handled, Closes, Pushes, StackSize;
    stack, cycles, found, seen := stack0, cycles0, found0, seen0;
    var items := Successors(adj, top.curr);
    ghost var total := StackSize(adj, start, stack0) + ForestSize(adj, start, top.path, items);
    for n := 0 to |items|
      invariant StackOk(g, start, stack) && stack0 <= stack
      invariant ReportsOk(g, cycles, found, seen) && seen0 <= seen
      invariant StackSize(adj, start, stack) + ForestSize(adj, start, top.path, items[n..]) == total
      invariant forall j :: 0 <= j < n ==> Handled(start, top.path, items[j].to, stack, seen)
    {
      ghost var stack1, seen1 := stack, seen;
      SuccessorInGraph(g, adj, top.curr, n);
      assert items[n..][0] == items[n] && items[n..][1..] == items[n + 1..];
      stack, cycles, found, seen := Follow(g, adj, start, top, items[n], stack, cycles, found, seen);
      forall j | 0 <= j < n ensures Handled(start, top.path, items[j].to, stack, seen) {
        HandledGrows(start, top.path, items[j].to, stack1, seen1, stack, seen);
      }
    }
    forall p | Target(g, start, p) && top.path <= p ensures p in seen || OnStack(stack, p) {
      HandledCovers(g, adj, start, top, p, stack, seen);
    }
  }

  method Push(ghost g: Graph, ghost adj: Adjacency, start: string, top: Entry, edge: LockEdge, stack0: seq<Entry>)
    returns (stack: seq<Entry>)
    requires EntryOk(g, start, top) && (top.curr, edge.to) in g && g[(top.curr, edge.to)] == edge
    requires Pushes(start, top.path, edge.to) && StackOk(g, start, stack0)
    ensures StackOk(g, start, stack) && stack0 <= stack && |stack| == |stack0| + 1
    ensures stack[|stack0|].path == top.path + [edge.to]
    ensures StackSize(adj, start, stack) == StackSize(adj, start, stack0) + TreeSize(adj, start, top.path + [edge.to])
  {
    ExtendOk(g, start, top, edge);
    stack := stack0 + [Entry(edge.to, top.path + [edge.to], top.edges + [edge])];
    assert stack[..|stack0|] == stack0;
  }

  lemma StartCovers(g: Graph, start: string)
    ensures EntryOk(g, start, Entry(start, [start], []))
    ensures forall p :: Target(g, start, p) ==> OnStack([Entry(start, [start], [])], p)
  {
    forall p | Target(g, start, p) ensures OnStack([Entry(start, [start], [])], p) {
      assert [Entry(start, [start], [])][0].path <= p;
    }
  }

  lemma OnStackSurvives(before: seq<Entry>, stack: seq<Entry>, p: seq<string>)
    requires before != [] && before[..|before| - 1] <= stack
    requires OnStack(before, p) && !(before[|before| - 1].path <= p)
    ensures OnStack(stack, p)
  {
    var k :| 0 <= k < |before| && before[k].path <= p;
    assert stack[k] == before[..|before| - 1][k] == before[k];
  }

  /** The `while stack` loop for one start node. */
  method SearchFrom(ghost g: Graph, adj: Adjacency, start: string,
                    cycles0: seq<Cycle>, ghost found0: seq<seq<string>>, seen0: set<seq<string>>)
    returns (cycles: seq<Cycle>, ghost found: seq<seq<string>>, seen: set<seq<string>>)
    requires AdjacencyOk(g, adj)
    requires ReportsOk(g, cycles0, found0, seen0)
    ensures ReportsOk(g, cycles, found, seen) && seen0 <= seen
    ensures forall p :: Target(g, start, p) ==> p in seen
  {
    hide ReportsOk, AdjacencyOk, Target, IsPath, Joins, LeastFirst, TreeSize;
    cycles, found, seen := cycles0, found0, seen0;
    var stack := [Entry(start, [start], [])];
    StartCovers(g, start);
    while stack != []
      invariant StackOk(g, start, stack)
      invariant ReportsOk(g, cycles, found, seen) && seen0 <= seen
      invariant forall p :: Target(g, start, p) ==> p in seen || OnStack(stack, p)
      decreases StackSize(adj, start, stack)
    {
      ghost var before := stack;
      var top := stack[|stack| - 1];
      var rest := stack[..|stack| - 1];
      stack, cycles, found, seen := Expand(g, adj, start, top, rest, cycles, found, seen);
      forall p | Target(g, start, p) ensures p in seen || OnStack(stack, p) {
        if OnStack(before, p) && !(top.path <= p) { OnStackSurvives(before, stack, p); }
      }
    }
  }

  lemma ReportIsGood(g: Graph, c: Cycle, p: seq<string>)
    requires ReportOf(g, c, p)
    ensures GoodReport(g, c) && Open(c) == p
  {
    assert (p + [p[0]])[..|p|] == p;
  }

  lemma ReportsSound(g: Graph, cycles: seq<Cycle>, found: seq<seq<string>>, seen: set<seq<string>>, k: nat)
    requires ReportsOk(g, cycles, found, seen) && k < |cycles|
    ensures GoodReport(g, cycles[k]) && LeastFirst(Open(cycles[k]))
  {
    ReportIsGood(g, cycles[k], found[k]);
  }

  /** The lock a cycle is entered at holds something, so the search starts there. */
  lemma StartIsKey(g: Graph, adj: Adjacency, p: seq<string>)
    requires AdjacencyOk(g, adj) && Target(g, if p == [] then "" else p[0], p)
    ensures p != [] && p[0] in adj
  {
    assert (p[0], p[1]) in g;
    assert LeadsTo(adj, p[0], p[1]);
  }

  lemma ReportRefutes(g: Graph, c: Cycle)
    requires GoodReport(g, c)
    ensures !NoCycleUpTo(g, MAX_LOCKS)
  {
    assert IsCycle(g, Open(c)) && |Open(c)| <= MAX_LOCKS;
  }

  lemma ReportsComplete(g: Graph, cycles: seq<Cycle>, found: seq<seq<string>>, seen: set<seq<string>>, c: seq<string>)
    requires ReportsOk(g, cycles, found, seen)
    requires forall p :: Target(g, if p == [] then "" else p[0], p) ==> p in seen
    requires IsCycle(g, c) && |c| <= MAX_LOCKS
    ensures Listed(cycles, c)
  {
    var r := RotatesToTarget(g, c);
    var p := Rotate(c, r);
    assert p[0] == c[r];
    var k :| 0 <= k < |found| && found[k] == p;
    ReportIsGood(g, cycles[k], p);
  }

  lemma ReportsDiffer(g: Graph, cycles: seq<Cycle>, found: seq<seq<string>>, seen: set<seq<string>>, i: nat, j: nat,
                      r: nat)
    requires ReportsOk(g, cycles, found, seen)
    requires i < j < |cycles| && r <= |Open(cycles[i])|
    ensures Open(cycles[j]) != Rotate(Open(cycles[i]), r)
  {
    var p, q := found[i], found[j];
    assert p != q;
    ReportIsGood(g, cycles[i], p);
    ReportIsGood(g, cycles[j], q);
    if q == Rotate(p, r) {
      RotationUnique(p, q, r);
    }
  }

  /** The `for start in nodes` loop. */
  method SearchAll(ghost g: Graph, adj: Adjacency, nodes: seq<string>)
    returns (cycles: seq<Cycle>, ghost found: seq<seq<string>>, ghost seen: set<seq<string>>)
    requires AdjacencyOk(g, adj) && forall a :: a in adj ==> a in nodes
    ensures ReportsOk(g, cycles, found, seen)
    ensures forall p :: Target(g, if p == [] then "" else p[0], p) ==> p in seen
  {
    assert ReportsOk(g, [], [], {});
    hide ReportsOk, AdjacencyOk, Target;
    cycles, found := [], [];
    var filter: set<seq<string>> := {};
    for n := 0 to |nodes|
      invariant ReportsOk(g, cycles, found, filter)
      invariant forall p, m :: 0 <= m < n && Target(g, nodes[m], p) ==> p in filter
    {
      cycles, found, filter := SearchFrom(g, adj, nodes[n], cycles, found, filter);
    }
    seen := filter;
    forall p | Target(g, if p == [] then "" else p[0], p) ensures p in seen {
      StartIsKey(g, adj, p);
      assert p[0] in nodes;
    }
  }

  /** A finished search is sound, complete up to the bound and free of repeats. */
  lemma AnswerOk(g: Graph, cycles: seq<Cycle>, found: seq<seq<string>>, seen: set<seq<string>>)
    requires ReportsOk(g, cycles, found, seen)
    requires forall p :: Target(g, if p == [] then "" else p[0], p) ==> p in seen
    ensures forall k :: 0 <= k < |cycles| ==> GoodReport(g, cycles[k]) && LeastFirst(Open(cycles[k]))
    ensures forall c :: IsCycle(g, c) && |c| <= MAX_LOCKS ==> Listed(cycles, c)
    ensures forall i, j, r :: 0 <= i < j < |cycles| && 0 <= r <= |Open(cycles[i])| ==>
              Open(cycles[j]) != Rotate(Open(cycles[i]), r)
    ensures cycles == [] <==> NoCycleUpTo(g, MAX_LOCKS)
  {
    hide ReportsOk, Target, GoodReport, IsCycle, LeastFirst;
    forall k | 0 <= k < |cycles| ensures GoodReport(g, cycles[k]) && LeastFirst(Open(cycles[k])) {
      ReportsSound(g, cycles, found, seen, k);
    }
    forall c | IsCycle(g, c) && |c| <= MAX_LOCKS ensures Listed(cycles, c) {
      ReportsComplete(g, cycles, found, seen, c);
    }
    forall i, j, r | 0 <= i < j < |cycles| && 0 <= r <= |Open(cycles[i])|
      ensures Open(cycles[j]) != Rotate(Open(cycles[i]), r)
    {
      ReportsDiffer(g, cycles, found, seen, i, j, r);
    }
    if cycles != [] { ReportRefutes(g, cycles[0]); }
  }

  class LockOrderAnalyzer {
    var edges: seq<LockEdge>            // in the order they were first recorded
    var locksDiscovered: set<string>

    /** Self-edges are never recorded, and one (locks, site, function) key is recorded once. */
    ghost predicate Valid()
      reads this
    {
      && (forall e :: e in edges ==> e.from != e.to && e.from in locksDiscovered && e.to in locksDiscovered)
      && (forall i, j :: 0 <= i < j < |edges| ==> !SameKey(edges[i], edges[j]))
    }

    static predicate SameKey(a: LockEdge, b: LockEdge) {
      a.from == b.from && a.to == b.to && a.fileLine == b.fileLine && a.func == b.func
    }

    constructor ()
      ensures Valid() && edges == [] && locksDiscovered == {}
    {
      edges, locksDiscovered := [], {};
    }

    method RecordEdge(held: string, newLock: string, fileLine: string, func: string, chain: string)
      requires Valid()
      modifies this
      ensures Valid()
      ensures locksDiscovered == old(locksDiscovered) + {held, newLock}
      ensures var e := LockEdge(held, newLock, fileLine, func, chain);
              edges == if held == newLock || (exists x :: x in old(edges) && x.from == held && x.to == newLock
                                                        && x.fileLine == fileLine && x.func == func)
                       then old(edges) else old(edges) + [e]
    {
      locksDiscovered := locksDiscovered + {held, newLock};
      if held == newLock {
        return;
      }
      var e := LockEdge(held, newLock, fileLine, func, chain);
      if !(exists x :: x in edges && SameKey(x, e)) {
        edges := edges + [e];
      }
    }

    /**
      Every report is a closed simple cycle of two to seven locks joined by first-recorded
      edges, from its smallest lock on; every such cycle is reported; none is reported twice,
      whichever lock it starts at.
     */
    method FindCycles(ignore: set<string>) returns (cycles: seq<Cycle>)
      requires Valid()
      ensures forall k :: 0 <= k < |cycles| ==> GoodReport(GraphOf(edges, ignore), cycles[k])
      ensures forall k :: 0 <= k < |cycles| ==> LeastFirst(Open(cycles[k]))
      ensures forall c :: IsCycle(GraphOf(edges, ignore), c) && |c| <= 7 ==> Listed(cycles, c)
      ensures forall i, j, r :: 0 <= i < j < |cycles| && 0 <= r <= |Open(cycles[i])| ==>
                Open(cycles[j]) != Rotate(Open(cycles[i]), r)
      ensures cycles == [] <==> NoCycleUpTo(GraphOf(edges, ignore), 7)
      ensures forall locks :: Over(GraphOf(edges, ignore), locks) && |locks| <= 7 ==>
                (cycles == [] <==> exists rank :: Ranks(GraphOf(edges, ignore), rank))
      ensures Over(GraphOf(edges, ignore), locksDiscovered)
    {
      hide GraphOf, AdjacencyOk, ReportsOk, Target, GoodReport, IsCycle, Listed, NoCycleUpTo;
      hide Ranks, Over, Less, LeastFirst;
      var adj := BuildAdjacency(edges, ignore);
      var nodes := SortedKeys(adj);
      ghost var found, seen;
      cycles, found, seen := SearchAll(GraphOf(edges, ignore), adj, nodes);
      AnswerOk(GraphOf(edges, ignore), cycles, found, seen);
      RecordedGraphOver(edges, ignore, locksDiscovered);
      assert cycles == [] <==> NoCycleUpTo(GraphOf(edges, ignore), MAX_LOCKS);
      forall locks | Over(GraphOf(edges, ignore), locks) && |locks| <= MAX_LOCKS
        ensures cycles == [] <==> exists rank :: Ranks(GraphOf(edges, ignore), rank)
      {
        EmptyAnswerMeansLockOrder(GraphOf(edges, ignore), locks);
      }
    }
  }

  // ---------------------------------------------------------------- what an empty answer means

  /** A global lock order: every acquisition edge goes to a strictly higher rank. */
  ghost predicate Ranks(g: Graph, rank: map<string, int>) {
    forall a, b :: (a, b) in g ==> a in rank && b in rank && rank[a] < rank[b]
  }

  /** Both ends of every edge are among `locks`, and no lock is acquired under itself. */
  ghost predicate Over(g: Graph, locks: set<string>) {
    forall a, b :: (a, b) in g ==> a in locks && b in locks && a != b
  }

  lemma RecordedGraphOver(edges: seq<LockEdge>, ignore: set<string>, locks: set<string>)
    requires forall e :: e in edges ==> e.from != e.to && e.from in locks && e.to in locks
    ensures Over(GraphOf(edges, ignore), locks)
  {
    forall a, b | (a, b) in GraphOf(edges, ignore) ensures a in locks && b in locks && a != b {
      GraphOfMeaning(edges, ignore, a, b);
    }
  }

  lemma {:induction false} DistinctFits(p: seq<string>, locks: set<string>)
    requires Distinct(p) && forall i :: 0 <= i < |p| ==> p[i] in locks
    ensures |p| <= |locks|
  {
    if p != [] {
      var init, last := p[..|p| - 1], p[|p| - 1];
      DistinctFits(init, locks - {last});
    }
  }

  ghost predicate Sink(g: Graph, locks: set<string>, s: string) {
    s in locks && forall b :: b in locks ==> (s, b) !in g
  }

  /** Following edges inside `locks` must run out of locks, or close a cycle. */
  lemma {:induction false} SinkFrom(g: Graph, locks: set<string>, p: seq<string>) returns (s: string)
    requires IsPath(g, p) && (forall i :: 0 <= i < |p| ==> p[i] in locks)
    requires (forall a, b :: (a, b) in g ==> a != b) && NoCycleUpTo(g, |locks|)
    ensures Sink(g, locks, s)
    decreases |locks| - |p|
  {
    DistinctFits(p, locks);
    s := p[|p| - 1];
    if b :| b in locks && (s, b) in g {
      if b in p {
        var k :| 0 <= k < |p| && p[k] == b;
        assert IsCycle(g, p[k..]);
      } else {
        DistinctFits(p + [b], locks);
        s := SinkFrom(g, locks, p + [b]);
      }
    }
  }

  lemma CycleInside(g: Graph, locks: set<string>, c: seq<string>)
    requires Over(g, locks) && IsCycle(g, c)
    ensures |c| <= |locks|
  {
    forall i | 0 <= i < |c| ensures c[i] in locks {
      if i < |c| - 1 { assert (c[i], c[i + 1]) in g; }
    }
    DistinctFits(c, locks);
  }

  /** No cycle: rank the locks by removing a sink at a time. */
  lemma {:induction false} RankLocks(g: Graph, locks: set<string>) returns (rank: map<string, int>)
    requires (forall a, b :: (a, b) in g ==> a != b) && (forall c :: !IsCycle(g, c))
    ensures rank.Keys == locks
    ensures forall a :: a in locks ==> rank[a] <= |locks|
    ensures forall a, b :: a in locks && b in locks && (a, b) in g ==> rank[a] < rank[b]
    decreases |locks|
  {
    if locks == {} {
      rank := map[];
    } else {
      var first :| first in locks;
      var s := SinkFrom(g, locks, [first]);
      var below := RankLocks(g, locks - {s});
      rank := below[s := |locks|];
    }
  }

  /** A rising rank along a path. */
  lemma {:induction false} RankRises(g: Graph, rank: map<string, int>, p: seq<string>)
    requires Ranks(g, rank) && IsPath(g, p) && p[0] in rank
    ensures p[|p| - 1] in rank && rank[p[0]] <= rank[p[|p| - 1]]
  {
    if |p| > 1 {
      assert (p[|p| - 2], p[|p| - 1]) in g;
      RankRises(g, rank, p[..|p| - 1]);
    }
  }

  /** A lock order exists exactly when no cycle does. */
  lemma OrderIffNoCycle(g: Graph, locks: set<string>)
    requires Over(g, locks)
    ensures (exists rank :: Ranks(g, rank)) <==> (forall c :: !IsCycle(g, c))
  {
    if rank :| Ranks(g, rank) {
      forall c | IsCycle(g, c) ensures false {
        assert (c[|c| - 1], c[0]) in g;
        RankRises(g, rank, c);
      }
    }
    if forall c :: !IsCycle(g, c) {
      var rank := RankLocks(g, locks);
      assert Ranks(g, rank);
    }
  }

  /**
    What the tool's verdict is worth.  An empty answer proves a global lock order whenever at
    most seven locks are involved, and a lock order always makes the answer empty.
   */
  lemma EmptyAnswerMeansLockOrder(g: Graph, locks: set<string>)
    requires Over(g, locks) && |locks| <= MAX_LOCKS
    ensures NoCycleUpTo(g, MAX_LOCKS) <==> exists rank :: Ranks(g, rank)
  {
    OrderIffNoCycle(g, locks);
    if NoCycleUpTo(g, MAX_LOCKS) {
      forall c | IsCycle(g, c) ensures false { CycleInside(g, locks, c); }
    }
  }

  /** A ring of `names`: each lock acquired under the one before it. */
  ghost predicate IsRing(g: Graph, names: seq<string>) {
    forall a, b :: (a, b) in g <==>
      exists i :: 0 <= i < |names| && a == names[i] && b == names[if i + 1 == |names| then 0 else i + 1]
  }

  lemma RingStep(g: Graph, names: seq<string>, i: nat, b: string)
    requires IsRing(g, names) && Distinct(names) && i < |names| && (names[i], b) in g
    ensures b == names[if i + 1 == |names| then 0 else i + 1]
  {
  }

  lemma {:induction false} RingWalk(g: Graph, names: seq<string>, p: seq<string>, i: nat)
    requires IsRing(g, names) && Distinct(names) && i < |names| && IsPath(g, p) && p[0] == names[i] && |p| <= |names|
    ensures p[|p| - 1] == names[if i + |p| - 1 < |names| then i + |p| - 1 else i + |p| - 1 - |names|]
  {
    if |p| > 1 {
      var q := p[..|p| - 1];
      RingWalk(g, names, q, i);
      var j := if i + |q| - 1 < |names| then i + |q| - 1 else i + |q| - 1 - |names|;
      assert (q[|q| - 1], p[|p| - 1]) in g;
      RingStep(g, names, j, p[|p| - 1]);
    }
  }

  /**
    Past seven locks the verdict is incomplete: any ring of eight or more distinct locks is a
    cycle, so it has no lock order, and yet it holds no cycle short enough to be found.
   */
  lemma LongRingIsMissed(g: Graph, names: seq<string>)
    requires Distinct(names) && |names| > 7 && IsRing(g, names)
    ensures NoCycleUpTo(g, 7) && !exists rank :: Ranks(g, rank)
  {
    forall c | IsCycle(g, c) ensures |c| > MAX_LOCKS {
      if |c| <= MAX_LOCKS {
        assert (c[0], c[1]) in g;
        var i :| 0 <= i < |names| && c[0] == names[i];
        RingWalk(g, names, c, i);
        var j := if i + |c| - 1 < |names| then i + |c| - 1 else i + |c| - 1 - |names|;
        RingStep(g, names, j, c[0]);
      }
    }
    forall i, j | 0 <= i < |names| - 1 && j == i + 1 ensures (names[i], names[j]) in g {
    }
    assert IsCycle(g, names);
    forall rank | Ranks(g, rank) ensures false { RankRises(g, rank, names); }
  }
}
