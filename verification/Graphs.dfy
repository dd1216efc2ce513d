/** The blast-radius graph: three-colour cycle detection, reachability, and the tree printer. */
module Graphs {
  import opened Policy

  /** A Go map lookup: a node without an entry has no edges. */
  function Children(g: Graph, n: string): seq<string> {
    if n in g then g[n] else []
  }

  ghost predicate Edge(g: Graph, a: string, b: string) {
    b in Children(g, a)
  }

  ghost predicate Hop(g: Graph, p: seq<string>, i: nat)
    requires i + 1 < |p|
  {
    Edge(g, p[i], p[i + 1])
  }

  ghost predicate Walk(g: Graph, p: seq<string>) {
    |p| > 0 && forall i | 0 <= i < |p| - 1 :: Hop(g, p, i)
  }

  ghost predicate Reaches(g: Graph, a: string, b: string) {
    exists p :: Walk(g, p) && p[0] == a && p[|p| - 1] == b
  }

  /** The edge a -> b lies on a cycle. */
  ghost predicate CycleEdge(g: Graph, a: string, b: string) {
    Edge(g, a, b) && Reaches(g, b, a)
  }

  ghost predicate Cyclic(g: Graph) {
    exists a, b :: CycleEdge(g, a, b)
  }

  /** Every edge leads to a node of the graph. */
  ghost predicate Closed(g: Graph) {
    forall n, m | Edge(g, n, m) :: m in g
  }

  /** `rank` falls along every edge that leaves a ranked node; its values count the ranked nodes. */
  ghost predicate Ranks(g: Graph, rank: map<string, nat>) {
    && (forall n, m | n in rank && Edge(g, n, m) :: m in rank && rank[m] < rank[n])
    && (forall n | n in rank :: rank[n] < |rank|)
  }

  lemma {:induction false} RankFallsAlongWalks(g: Graph, rank: map<string, nat>, p: seq<string>)
    requires Ranks(g, rank) && Walk(g, p) && p[0] in rank
    ensures p[|p| - 1] in rank && rank[p[|p| - 1]] + |p| - 1 <= rank[p[0]]
  {
    if |p| > 1 {
      assert Hop(g, p, 0);
      forall i | 0 <= i < |p| - 2 ensures Hop(g, p[1..], i) { assert Hop(g, p, i + 1); }
      RankFallsAlongWalks(g, rank, p[1..]);
    }
  }

  lemma RankedNodesAreAcyclic(g: Graph, rank: map<string, nat>, a: string, b: string)
    requires Ranks(g, rank) && a in rank
    ensures !CycleEdge(g, a, b)
  {
    if CycleEdge(g, a, b) {
      var p :| Walk(g, p) && p[0] == b && p[|p| - 1] == a;
      RankFallsAlongWalks(g, rank, p);
    }
  }

  lemma RankedGraphIsAcyclic(g: Graph, rank: map<string, nat>)
    requires Ranks(g, rank) && g.Keys <= rank.Keys
    ensures !Cyclic(g)
  {
    forall a, b ensures !CycleEdge(g, a, b) {
      if a in g { RankedNodesAreAcyclic(g, rank, a, b); }
    }
  }

  // ----- cycle detection -----

  const WHITE := 0
  const GREY := 1
  const BLACK := 2

  type Colours = map<string, int>

  function ColourOf(color: Colours, n: string): int {
    if n in color then color[n] else WHITE
  }

  ghost function Whites(g: Graph, color: Colours): set<string> {
    set n | n in g && ColourOf(color, n) == WHITE
  }

  /** The grey nodes are exactly the current path, in order and without repetition. */
  ghost predicate GreyPath(g: Graph, color: Colours, path: seq<string>) {
    && (forall n :: ColourOf(color, n) == GREY <==> n in path)
    && (forall i, j | 0 <= i < j < |path| :: path[i] != path[j])
    && (path == [] || Walk(g, path))
  }

  /** The black nodes are closed under edges and ranked by finishing order, hence acyclic. */
  ghost predicate BlackRanked(g: Graph, color: Colours, rank: map<string, nat>) {
    && (forall n :: ColourOf(color, n) == BLACK <==> n in rank)
    && (forall n | n in color :: n in g && color[n] in {WHITE, GREY, BLACK})
    && Ranks(g, rank)
  }

  lemma EnterNode(g: Graph, color: Colours, rank: map<string, nat>, path: seq<string>, node: string)
    requires GreyPath(g, color, path) && BlackRanked(g, color, rank)
    requires node in g && ColourOf(color, node) == WHITE && (path == [] || Edge(g, path[|path| - 1], node))
    ensures GreyPath(g, color[node := GREY], path + [node]) && BlackRanked(g, color[node := GREY], rank)
    ensures Whites(g, color[node := GREY]) < Whites(g, color)
  {
    var here := path + [node];
    forall i | 0 <= i < |here| - 1 ensures Hop(g, here, i) {
      if i < |path| - 1 { assert Hop(g, path, i); }
    }
    assert node in Whites(g, color) && node !in Whites(g, color[node := GREY]);
  }

  ghost function Elements(s: seq<string>): set<string> {
    set n | n in s
  }

  lemma NeitherGreyNorWhite(g: Graph, color: Colours, rank: map<string, nat>, n: string)
    requires BlackRanked(g, color, rank) && ColourOf(color, n) != GREY && ColourOf(color, n) != WHITE
    ensures n in rank
  {}

  lemma LeaveNode(g: Graph, color: Colours, rank: map<string, nat>, path: seq<string>, node: string)
    requires GreyPath(g, color, path + [node]) && BlackRanked(g, color, rank) && node in g
    requires Elements(Children(g, node)) <= rank.Keys
    ensures GreyPath(g, color[node := BLACK], path)
    ensures BlackRanked(g, color[node := BLACK], rank[node := |rank|])
    ensures Whites(g, color[node := BLACK]) <= Whites(g, color)
  {
    var here := path + [node];
    assert here[|path|] == node;
    assert node !in rank;
    forall i | 0 <= i < |path| ensures path[i] != node { assert here[i] != here[|path|]; }
    forall n ensures ColourOf(color[node := BLACK], n) == GREY <==> n in path {
      assert n in here <==> n in path || n == node;
    }
    forall i, j | 0 <= i < j < |path| ensures path[i] != path[j] { assert here[i] != here[j]; }
    forall i | 0 <= i < |path| - 1 ensures Hop(g, path, i) { assert Hop(g, here, i); }
  }

  /** The depth-first search of the cycle check. `rank` records, for each black node, how many nodes
      were finished before it. */
  class ColourSearch {
    const graph: Graph
    var color: Colours
    var cyclePath: seq<string>
    ghost var rank: map<string, nat>

    constructor (graph: Graph)
      ensures this.graph == graph
      ensures PathInvariant([]) && color == map[] && cyclePath == []
    {
      this.graph := graph;
      color, cyclePath, rank := map[], [], map[];
    }

    ghost predicate PathInvariant(path: seq<string>) reads this {
      GreyPath(graph, color, path) && BlackRanked(graph, color, rank)
    }

    method Dfs(node: string, ghost path: seq<string>) returns (found: bool)
      requires Closed(graph) && PathInvariant(path)
      requires node in graph && ColourOf(color, node) == WHITE
      requires path == [] || Edge(graph, path[|path| - 1], node)
      modifies this
      decreases Whites(graph, color)
      ensures !found ==>
                && PathInvariant(path) && node in rank
                && Whites(graph, color) < old(Whites(graph, color))
                && old(rank.Keys) <= rank.Keys
                && cyclePath == old(cyclePath)
      ensures found ==>
                && |cyclePath| == |old(cyclePath)| + 2 && old(cyclePath) <= cyclePath
                && CycleEdge(graph, cyclePath[|cyclePath| - 2], cyclePath[|cyclePath| - 1])
    {
      hide GreyPath, BlackRanked, CycleEdge;
      EnterNode(graph, color, rank, path, node);
      color := color[node := GREY];
      ghost var here := path + [node];
      assert here[|here| - 1] == node;
      var neighbours := graph[node];
      for i := 0 to |neighbours|
        invariant PathInvariant(here)
        invariant Elements(neighbours[..i]) <= rank.Keys
        invariant Whites(graph, color) < old(Whites(graph, color))
        invariant old(rank.Keys) <= rank.Keys
        invariant cyclePath == old(cyclePath)
      {
        var neighbour := neighbours[i];
        assert Edge(graph, node, neighbour);
        if ColourOf(color, neighbour) == GREY {
          cyclePath := cyclePath + [node, neighbour];
          BackEdgeClosesCycle(graph, color, here, neighbour);
          return true;
        }
        if ColourOf(color, neighbour) == WHITE {
          found := Dfs(neighbour, here);
          if found { return true; }
        } else {
          NeitherGreyNorWhite(graph, color, rank, neighbour);
        }
        assert neighbours[..i + 1] == neighbours[..i] + [neighbour];
      }
      assert neighbours[..|neighbours|] == neighbours;
      LeaveNode(graph, color, rank, path, node);
      color := color[node := BLACK];
      rank := rank[node := |rank|];
      return false;
    }
  }

  lemma BackEdgeClosesCycle(g: Graph, color: Colours, path: seq<string>, n: string)
    requires GreyPath(g, color, path) && path != [] && ColourOf(color, n) == GREY && Edge(g, path[|path| - 1], n)
    ensures CycleEdge(g, path[|path| - 1], n)
  {
    var k :| 0 <= k < |path| && path[k] == n;
    var p := path[k..];
    forall i | 0 <= i < |p| - 1 ensures Hop(g, p, i) {
      assert Hop(g, path, k + i);
    }
    assert Walk(g, p) && p[0] == n && p[|p| - 1] == path[|path| - 1];
  }

  lemma BlackAtTopLevel(g: Graph, color: Colours, rank: map<string, nat>, n: string)
    requires GreyPath(g, color, []) && BlackRanked(g, color, rank) && ColourOf(color, n) != WHITE
    ensures n in rank
  {
    assert n !in [];
  }

  lemma EverythingFinished(g: Graph, color: Colours, rank: map<string, nat>)
    requires BlackRanked(g, color, rank) && g.Keys <= rank.Keys
    ensures Ranks(g, rank) && rank.Keys == g.Keys && !Cyclic(g)
  {
    forall n | n in rank ensures n in g { assert ColourOf(color, n) == BLACK; }
    RankedGraphIsAcyclic(g, rank);
  }

  /** The whole check: whatever order the nodes are taken in, it reports a cycle exactly when the graph has
      one, the edge it names lies on a cycle, and otherwise the finishing order ranks every node. */
  method DetectCycle(g: Graph) returns (found: bool, cyclePath: seq<string>, ghost rank: map<string, nat>)
    requires Closed(g)
    ensures found <==> Cyclic(g)
    ensures found ==> |cyclePath| == 2 && CycleEdge(g, cyclePath[0], cyclePath[1])
    ensures !found ==> Ranks(g, rank) && rank.Keys == g.Keys && cyclePath == []
  {
    hide GreyPath, BlackRanked, Ranks, CycleEdge;
    var search := new ColourSearch(g);
    var todo := g.Keys;
    while todo != {}
      invariant search.graph == g && search.PathInvariant([]) && search.cyclePath == []
      invariant todo <= g.Keys
      invariant g.Keys <= todo + search.rank.Keys
      decreases todo
    {
      var node :| node in todo;
      todo := todo - {node};
      if ColourOf(search.color, node) == WHITE {
        found := search.Dfs(node, []);
        if found { return true, search.cyclePath, search.rank; }
      } else {
        BlackAtTopLevel(g, search.color, search.rank, node);
      }
    }
    rank := search.rank;
    EverythingFinished(g, search.color, rank);
    return false, [], rank;
  }

  // ----- reachability -----

  lemma ReachesStep(g: Graph, a: string, b: string, c: string)
    requires Reaches(g, a, b) && Edge(g, b, c)
    ensures Reaches(g, a, c)
  {
    var p :| Walk(g, p) && p[0] == a && p[|p| - 1] == b;
    var q := p + [c];
    forall i | 0 <= i < |q| - 1 ensures Hop(g, q, i) {
      if i < |p| - 1 { assert Hop(g, p, i); }
    }
    assert Walk(g, q) && q[0] == a && q[|q| - 1] == c;
  }

  lemma ReachesItself(g: Graph, a: string)
    ensures Reaches(g, a, a)
  {
    assert Walk(g, [a]) && [a][0] == a;
  }

  /** A set that holds the start of a walk and is closed under edges holds its end. */
  lemma {:induction false} ClosedSetHoldsWalks(g: Graph, s: set<string>, p: seq<string>)
    requires forall n, m | n in s && Edge(g, n, m) :: m in s
    requires Walk(g, p) && p[0] in s
    ensures p[|p| - 1] in s
  {
    if |p| > 1 {
      assert Hop(g, p, |p| - 2);
      var q := p[..|p| - 1];
      forall i | 0 <= i < |q| - 1 ensures Hop(g, q, i) { assert Hop(g, p, i); }
      ClosedSetHoldsWalks(g, s, q);
    }
  }

  /** `order` lists the visited nodes, each once. */
  ghost predicate Recorded(visited: set<string>, order: seq<string>) {
    && (forall n :: n in visited <==> n in order)
    && (forall i, j | 0 <= i < j < |order| :: order[i] != order[j])
  }

  lemma RecordNode(visited: set<string>, order: seq<string>, node: string)
    requires Recorded(visited, order) && node !in visited
    ensures Recorded(visited + {node}, order + [node])
  {}

  /** The nodes of `done` are reachable and all their children are visited. */
  ghost predicate Explored(g: Graph, start: string, done: set<string>, visited: set<string>) {
    forall n | n in done :: Reaches(g, start, n) && Elements(Children(g, n)) <= visited
  }

  lemma ExploredGrows(
      g: Graph, start: string, a: set<string>, b: set<string>, visited: set<string>, visited': set<string>)
    requires Explored(g, start, a, visited) && Explored(g, start, b, visited') && visited <= visited'
    ensures Explored(g, start, a + b, visited')
  {}

  lemma ExploreNode(g: Graph, start: string, done: set<string>, visited: set<string>, node: string)
    requires Explored(g, start, done, visited) && Reaches(g, start, node) && Elements(Children(g, node)) <= visited
    ensures Explored(g, start, done + {node}, visited)
  {}

  class Walker {
    const graph: Graph
    var visited: set<string>
    var order: seq<string>

    constructor (graph: Graph)
      ensures this.graph == graph && visited == {} && order == []
    {
      this.graph, visited, order := graph, {}, [];
    }

    method Visit(node: string, ghost start: string, ghost universe: set<string>)
      requires Recorded(visited, order) && Reaches(graph, start, node)
      requires node in universe && forall n, m | n in universe && Edge(graph, n, m) :: m in universe
      modifies this
      decreases universe - visited
      ensures Recorded(visited, order) && node in visited
      ensures old(visited) <= visited && old(order) <= order
      ensures old(order) == [] ==> order != [] && order[0] == node
      ensures Explored(graph, start, visited - old(visited), visited)
    {
      NothingToExplore(graph, start, visited);
      if node in visited { return; }
      hide Reaches, Recorded, Explored;
      RecordNode(visited, order, node);
      visited := visited + {node};
      order := order + [node];
      ghost var entered := visited;
      var children := Children(graph, node);
      NothingToExplore(graph, start, visited);
      assert visited - entered == {};
      for i := 0 to |children|
        invariant Recorded(visited, order) && entered <= visited
        invariant old(order) + [node] <= order
        invariant Elements(children[..i]) <= visited
        invariant Explored(graph, start, visited - entered, visited)
      {
        assert Edge(graph, node, children[i]);
        ReachesStep(graph, start, node, children[i]);
        ghost var before := visited;
        Visit(children[i], start, universe);
        ExploredGrows(graph, start, before - entered, visited - before, before, visited);
        assert (before - entered) + (visited - before) == visited - entered;
        assert children[..i + 1] == children[..i] + [children[i]];
      }
      assert children[..|children|] == children;
      ExploreNode(graph, start, visited - entered, visited, node);
      assert (visited - entered) + {node} == visited - old(visited);
    }
  }

  lemma NothingToExplore(g: Graph, start: string, visited: set<string>)
    ensures Explored(g, start, {}, visited) && visited - visited == {}
  {}

  ghost function Universe(g: Graph, start: string): set<string> {
    g.Keys + (set n, m | n in g && m in g[n] :: m) + {start}
  }

  /** Every node reachable from `start`, each exactly once, `start` first. */
  method ReachableFrom(g: Graph, start: string) returns (order: seq<string>)
    ensures order != [] && order[0] == start
    ensures forall n :: n in order <==> Reaches(g, start, n)
    ensures forall i, j | 0 <= i < j < |order| :: order[i] != order[j]
  {
    var walker := new Walker(g);
    ReachesItself(g, start);
    walker.Visit(start, start, Universe(g, start));
    order := walker.order;
    ghost var visited := walker.visited;
    assert visited - {} == visited;
    forall n, m | n in visited && Edge(g, n, m) ensures m in visited { assert m in Elements(Children(g, n)); }
    forall n | Reaches(g, start, n) ensures n in order {
      var p :| Walk(g, p) && p[0] == start && p[|p| - 1] == n;
      ClosedSetHoldsWalks(g, visited, p);
    }
  }

  // ----- the tree printer -----

  /** One printed line. */
  datatype Line = Line(prefix: string, connector: string, node: string)

  /** The root, printed with an empty prefix, has no connector. */
  function LineFor(node: string, prefix: string, last: bool): Line {
    Line(prefix, if prefix == "" then "" else if last then "└── " else "├── ", node)
  }

  ghost function Height(rank: map<string, nat>, node: string): nat {
    if node in rank then rank[node] + 1 else 0
  }

  /** The printer keeps no visited set; only a ranking of the graph makes it terminate. */
  function PrintGraph(g: Graph, node: string, prefix: string, last: bool, ghost rank: map<string, nat>): seq<Line>
    requires Ranks(g, rank) && g.Keys <= rank.Keys
    decreases Height(rank, node), |Children(g, node)| + 1
  {
    [LineFor(node, prefix, last)]
    + PrintChildren(g, node, 0, if last then prefix + "    " else prefix + "│   ", rank)
  }

  function PrintChildren(g: Graph, node: string, i: nat, prefix: string, ghost rank: map<string, nat>): seq<Line>
    requires Ranks(g, rank) && g.Keys <= rank.Keys && i <= |Children(g, node)|
    decreases Height(rank, node), |Children(g, node)| - i
  {
    var children := Children(g, node);
    if i == |children| then [] else
    assert Edge(g, node, children[i]);
    PrintGraph(g, children[i], prefix, i == |children| - 1, rank)
    + PrintChildren(g, node, i + 1, prefix, rank)
  }

  ghost predicate Prints(lines: seq<Line>, n: string) {
    exists line | line in lines :: line.node == n
  }

  lemma WalkFromChild(g: Graph, p: seq<string>)
    requires Walk(g, p) && |p| > 1
    ensures Edge(g, p[0], p[1]) && Walk(g, p[1..])
  {
    var q := p[1..];
    assert Hop(g, p, 0);
    forall i | 0 <= i < |q| - 1 ensures Hop(g, q, i) { assert Hop(g, p, i + 1); }
  }

  lemma WalkFromParent(g: Graph, a: string, p: seq<string>)
    requires Walk(g, p) && Edge(g, a, p[0])
    ensures Walk(g, [a] + p)
  {
    var q := [a] + p;
    forall i | 0 <= i < |q| - 1 ensures Hop(g, q, i) {
      if i > 0 { assert Hop(g, p, i - 1); }
    }
  }

  lemma ReachesThroughChild(g: Graph, a: string, b: string)
    ensures Reaches(g, a, b) <==> a == b || exists c :: Edge(g, a, c) && Reaches(g, c, b)
  {
    hide Edge, Hop;
    if Reaches(g, a, b) && a != b {
      var p :| Walk(g, p) && p[0] == a && p[|p| - 1] == b;
      WalkFromChild(g, p);
      assert Walk(g, p[1..]) && p[1..][0] == p[1] && p[1..][|p| - 2] == b;
    }
    if a == b { ReachesItself(g, a); }
    if c :| Edge(g, a, c) && Reaches(g, c, b) {
      var p :| Walk(g, p) && p[0] == c && p[|p| - 1] == b;
      WalkFromParent(g, a, p);
      assert ([a] + p)[0] == a && ([a] + p)[|p|] == b;
    }
  }

  /** On a ranked graph the printed tree names exactly the nodes reachable from its root. */
  lemma {:induction false} PrinterNamesReachableNodes(
      g: Graph, node: string, prefix: string, last: bool, rank: map<string, nat>, n: string)
    requires Ranks(g, rank) && g.Keys <= rank.Keys
    ensures Prints(PrintGraph(g, node, prefix, last, rank), n) <==> Reaches(g, node, n)
    decreases Height(rank, node), |Children(g, node)| + 1
  {
    var head := LineFor(node, prefix, last);
    var prefix' := if last then prefix + "    " else prefix + "│   ";
    var rest := PrintChildren(g, node, 0, prefix', rank);
    assert PrintGraph(g, node, prefix, last, rank) == [head] + rest;
    ChildrenNameReachableNodes(g, node, 0, prefix', rank, n);
    ReachesThroughChild(g, node, n);
    PrintsEither([head], rest, n);
    if node == n { assert head in [head]; }
    assert Children(g, node)[0..] == Children(g, node);
  }

  lemma PrintsEither(a: seq<Line>, b: seq<Line>, n: string)
    ensures Prints(a + b, n) <==> Prints(a, n) || Prints(b, n)
  {
    forall line ensures line in a + b <==> line in a || line in b {}
    if Prints(a + b, n) { var line :| line in a + b && line.node == n; }
    if Prints(a, n) { var line :| line in a && line.node == n; assert line in a + b; }
    if Prints(b, n) { var line :| line in b && line.node == n; assert line in a + b; }
  }

  ghost predicate SomeReaches(g: Graph, nodes: seq<string>, n: string) {
    exists c :: c in nodes && Reaches(g, c, n)
  }

  lemma {:induction false} ChildrenNameReachableNodes(
      g: Graph, node: string, i: nat, prefix: string, rank: map<string, nat>, n: string)
    requires Ranks(g, rank) && g.Keys <= rank.Keys && i <= |Children(g, node)|
    ensures Prints(PrintChildren(g, node, i, prefix, rank), n) <==> SomeReaches(g, Children(g, node)[i..], n)
    decreases Height(rank, node), |Children(g, node)| - i
  {
    var children := Children(g, node);
    if i < |children| {
      var c := children[i];
      assert Edge(g, node, c);
      var first := PrintGraph(g, c, prefix, i == |children| - 1, rank);
      var rest := PrintChildren(g, node, i + 1, prefix, rank);
      PrinterNamesReachableNodes(g, c, prefix, i == |children| - 1, rank, n);
      ChildrenNameReachableNodes(g, node, i + 1, prefix, rank, n);
      PrintsEither(first, rest, n);
      SomeReachesSplits(g, children[i..], n);
      assert children[i..][0] == c && children[i..][1..] == children[i + 1..];
    }
  }

  lemma SomeReachesSplits(g: Graph, nodes: seq<string>, n: string)
    requires nodes != []
    ensures SomeReaches(g, nodes, n) <==> Reaches(g, nodes[0], n) || SomeReaches(g, nodes[1..], n)
  {
    assert forall c :: c in nodes <==> c == nodes[0] || c in nodes[1..];
  }

  /** The printer's recursion from `node` is at most d calls deep. */
  ghost predicate PrintsWithin(g: Graph, node: string, d: nat)
    decreases d
  {
    d > 0 && forall c | c in Children(g, node) :: PrintsWithin(g, c, d - 1)
  }

  ghost predicate PrinterReturns(g: Graph, node: string) {
    exists d: nat :: PrintsWithin(g, node, d)
  }

  lemma {:induction false} RankBoundsPrinter(g: Graph, rank: map<string, nat>, node: string)
    requires Ranks(g, rank) && node in rank
    ensures PrintsWithin(g, node, rank[node] + 1)
    decreases rank[node]
  {
    forall c | c in Children(g, node) ensures PrintsWithin(g, c, rank[node]) {
      assert Edge(g, node, c);
      RankBoundsPrinter(g, rank, c);
      DeeperBoundStillHolds(g, c, rank[c] + 1, rank[node]);
    }
  }

  lemma {:induction false} DeeperBoundStillHolds(g: Graph, node: string, d: nat, e: nat)
    requires PrintsWithin(g, node, d) && d <= e
    ensures PrintsWithin(g, node, e)
    decreases d
  {
    forall c | c in Children(g, node) ensures PrintsWithin(g, c, e - 1) {
      DeeperBoundStillHolds(g, c, d - 1, e - 1);
    }
  }

  lemma {:induction false} WalksUseUpTheBound(g: Graph, p: seq<string>, d: nat)
    requires Walk(g, p) && PrintsWithin(g, p[0], d)
    ensures |p| <= d && PrintsWithin(g, p[|p| - 1], d - |p| + 1)
  {
    if |p| > 1 {
      assert Hop(g, p, 0);
      forall i | 0 <= i < |p| - 2 ensures Hop(g, p[1..], i) { assert Hop(g, p, i + 1); }
      WalksUseUpTheBound(g, p[1..], d - 1);
    }
  }

  /** No bound is deep enough for a node on a cycle: the printer would not return. */
  lemma {:induction false} CyclesDefeatThePrinter(g: Graph, a: string, b: string, d: nat)
    requires CycleEdge(g, a, b)
    ensures !PrintsWithin(g, b, d)
    decreases d
  {
    if PrintsWithin(g, b, d) {
      var p :| Walk(g, p) && p[0] == b && p[|p| - 1] == a;
      WalksUseUpTheBound(g, p, d);
      assert PrintsWithin(g, b, d - |p|);
      CyclesDefeatThePrinter(g, a, b, d - |p|);
    }
  }

  /** Without a bound there are walks of every length. */
  lemma {:induction false} UnboundedPrinterWalks(g: Graph, node: string, d: nat) returns (p: seq<string>)
    requires !PrintsWithin(g, node, d)
    ensures Walk(g, p) && p[0] == node && |p| == d + 1
    decreases d
  {
    if d == 0 {
      p := [node];
    } else {
      var c :| c in Children(g, node) && !PrintsWithin(g, c, d - 1);
      var q := UnboundedPrinterWalks(g, c, d - 1);
      p := [node] + q;
      assert Edge(g, node, c);
      forall i | 0 <= i < |p| - 1 ensures Hop(g, p, i) {
        if i > 0 { assert Hop(g, q, i - 1); }
      }
    }
  }

  /** A walk that visits a node twice closes a cycle. */
  lemma RepeatedNodeClosesCycle(g: Graph, p: seq<string>, i: nat, j: nat)
    requires Walk(g, p) && i < j < |p| && p[i] == p[j]
    ensures Cyclic(g)
  {
    var q := p[i..j];
    forall k | 0 <= k < |q| - 1 ensures Hop(g, q, k) { assert Hop(g, p, i + k); }
    assert Walk(g, q) && q[0] == p[j] && q[|q| - 1] == p[j - 1];
    assert Hop(g, p, j - 1);
    assert CycleEdge(g, p[j - 1], p[j]);
  }

  lemma {:induction false} DistinctFitsInSet(p: seq<string>, s: set<string>)
    requires forall i | 0 <= i < |p| :: p[i] in s
    requires forall i, j | 0 <= i < j < |p| :: p[i] != p[j]
    ensures |p| <= |s|
  {
    if p != [] {
      DistinctFitsInSet(p[1..], s - {p[0]});
    }
  }

  /** On an acyclic closed graph the printer is never deeper than there are nodes. */
  lemma AcyclicBoundsPrinter(g: Graph, node: string)
    requires Closed(g) && !Cyclic(g) && node in g
    ensures PrintsWithin(g, node, |g.Keys|)
  {
    if !PrintsWithin(g, node, |g.Keys|) {
      var p := UnboundedPrinterWalks(g, node, |g.Keys|);
      forall k | 0 <= k < |p| ensures p[k] in g {
        if k > 0 { assert Hop(g, p, k - 1); }
      }
      forall i, j | 0 <= i < j < |p| ensures p[i] != p[j] {
        if p[i] == p[j] { RepeatedNodeClosesCycle(g, p, i, j); }
      }
      DistinctFitsInSet(p, g.Keys);
    }
  }

  /** The printer, which keeps no visited set, returns from every node exactly when the graph has no cycle. */
  lemma PrinterReturnsIffAcyclic(g: Graph)
    requires Closed(g)
    ensures (forall n | n in g :: PrinterReturns(g, n)) <==> !Cyclic(g)
  {
    if Cyclic(g) {
      var a, b :| CycleEdge(g, a, b);
      assert b in g;
      forall d: nat ensures !PrintsWithin(g, b, d) { CyclesDefeatThePrinter(g, a, b, d); }
    } else {
      forall n | n in g ensures PrinterReturns(g, n) { AcyclicBoundsPrinter(g, n); }
    }
  }
}
