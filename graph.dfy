/** The definition graph and its statistics (app/services/graph.py). A node is a
    lowercased headword or a word some definition links to; an edge `(w, t)` says the
    definition of `w` mentions `t`. The extractor is `DictionaryService.extract_linked_words`,
    passed in as a function so the graph does not depend on how links are found.
    Cycle enumeration and weakly connected components are computed by networkx; the
    model takes their results as arguments and states what a valid result is. */
module Graph {
  import opened Text
  import opened Sorting
  import Dictionary

  type Edge = (string, string)

  /** A directed graph without parallel edges; `nodes` keeps insertion order, which is
      the order networkx reports nodes and degrees in. */
  datatype Graph = Graph(nodes: seq<string>, edges: set<Edge>)

  ghost predicate DistinctNodes(nodes: seq<string>) {
    forall i, j :: 0 <= i < j < |nodes| ==> nodes[i] != nodes[j]
  }

  ghost predicate WellFormed(g: Graph) {
    DistinctNodes(g.nodes) && forall e :: e in g.edges ==> e.0 in g.nodes && e.1 in g.nodes
  }

  /** `G.add_node(v)`: a no-op when `v` is already a node. */
  function AddNode(g: Graph, v: string): (r: Graph)
    ensures WellFormed(g) ==> WellFormed(r)
    ensures v in r.nodes && r.edges == g.edges
    ensures forall u :: u in r.nodes <==> u in g.nodes || u == v
    ensures g.nodes <= r.nodes
  {
    if v in g.nodes then g else Graph(g.nodes + [v], g.edges)
  }

  /** `G.add_edge(a, b)`: adds missing endpoints, `a` first, then the edge once. */
  function AddEdge(g: Graph, a: string, b: string): (r: Graph)
    ensures WellFormed(g) ==> WellFormed(r)
    ensures r.edges == g.edges + {(a, b)}
    ensures forall u :: u in r.nodes <==> u in g.nodes || u == a || u == b
    ensures g.nodes <= r.nodes
  {
    var g1 := AddNode(AddNode(g, a), b);
    Graph(g1.nodes, g1.edges + {(a, b)})
  }

  /** The inner `for linked_word in linked_words` loop: an edge from `w` to each word. */
  function AddEdges(g: Graph, w: string, linked: seq<string>): (r: Graph)
    ensures WellFormed(g) ==> WellFormed(r)
    ensures forall e :: e in r.edges <==> e in g.edges || (e.0 == w && e.1 in linked)
    ensures forall u :: u in r.nodes <==> u in g.nodes || (u == w && linked != []) || u in linked
    ensures g.nodes <= r.nodes
  {
    if linked == [] then g
    else
      var init := linked[..|linked| - 1];
      var last := linked[|linked| - 1];
      assert forall t :: t in linked <==> t in init || t == last by {
        assert linked == init + [last];
      }
      AddEdge(AddEdges(g, w, init), w, last)
  }

  /** The inner loop of `_build_graph`, edge by edge. */
  method AddLinkedEdges(g0: Graph, word: string, linkedWords: seq<string>) returns (g: Graph)
    ensures g == AddEdges(g0, word, linkedWords)
  {
    g := g0;
    var j := 0;
    while j < |linkedWords|
      invariant 0 <= j <= |linkedWords|
      invariant g == AddEdges(g0, word, linkedWords[..j])
    {
      assert linkedWords[..j + 1][..j] == linkedWords[..j];
      g := AddEdge(g, word, linkedWords[j]);
      j := j + 1;
    }
    assert linkedWords[..j] == linkedWords;
  }

  /** One scanned row: the node for its lowercased word, then its links. */
  function AddRow(g: Graph, w: string, linked: seq<string>): Graph {
    AddEdges(AddNode(g, w), w, linked)
  }

  /** The loop of `_build_graph` over the rows of `words`. */
  method ScanIntoGraph(rows: seq<Dictionary.Row>, extract: (string, string) -> seq<string>) returns (g: Graph)
    ensures g == GraphOf(rows, extract)
  {
    g := Graph([], {});
    var i := 0;
    while i < |rows|
      invariant 0 <= i <= |rows|
      invariant g == GraphOf(rows[..i], extract)
    {
      GraphOfStep(rows, i, extract);
      var word := Lower(rows[i].word);
      g := AddNode(g, word);
      var linkedWords := extract(word, rows[i].definition);
      g := AddLinkedEdges(g, word, linkedWords);
      i := i + 1;
    }
    assert rows[..i] == rows;
  }

  /** One more row adds its node and its links. */
  lemma GraphOfStep(rows: seq<Dictionary.Row>, i: nat, extract: (string, string) -> seq<string>)
    requires i < |rows|
    ensures var w := Lower(rows[i].word);
      GraphOf(rows[..i + 1], extract) == AddRow(GraphOf(rows[..i], extract), w, extract(w, rows[i].definition))
  {
    assert rows[..i + 1][..i] == rows[..i];
  }

  /** The graph `_build_graph` builds from the rows of `words`, in scan order. */
  function GraphOf(rows: seq<Dictionary.Row>, extract: (string, string) -> seq<string>): (g: Graph)
    ensures WellFormed(g)
  {
    if rows == [] then Graph([], {})
    else
      var last := rows[|rows| - 1];
      var w := Lower(last.word);
      AddRow(GraphOf(rows[..|rows| - 1], extract), w, extract(w, last.definition))
  }

  /** The linked words the extractor gives for row `r`. */
  function LinksOfRow(r: Dictionary.Row, extract: (string, string) -> seq<string>): seq<string> {
    extract(Lower(r.word), r.definition)
  }

  /** Row `r` contributes node `u`: its lowercased word or one of its links. */
  predicate RowGivesNode(r: Dictionary.Row, extract: (string, string) -> seq<string>, u: string) {
    u == Lower(r.word) || u in LinksOfRow(r, extract)
  }

  /** Row `r` contributes edge `e`: from its lowercased word to one of its links. */
  predicate RowGivesEdge(r: Dictionary.Row, extract: (string, string) -> seq<string>, e: Edge) {
    e.0 == Lower(r.word) && e.1 in LinksOfRow(r, extract)
  }

  /** Nodes are exactly the lowercased row words and the words they link to. */
  lemma {:induction false} GraphOfNodes(rows: seq<Dictionary.Row>, extract: (string, string) -> seq<string>, u: string)
    ensures u in GraphOf(rows, extract).nodes <==>
            exists i :: 0 <= i < |rows| && RowGivesNode(rows[i], extract, u)
  {
    if rows != [] {
      var init := rows[..|rows| - 1];
      GraphOfNodes(init, extract, u);
      SomeRowGivesNode(rows, init, extract, u);
    }
  }

  /** A node comes from some row exactly when it comes from an earlier row or the last. */
  lemma SomeRowGivesNode(rows: seq<Dictionary.Row>, init: seq<Dictionary.Row>, extract: (string, string) -> seq<string>, u: string)
    requires rows != [] && init == rows[..|rows| - 1]
    ensures (exists i :: 0 <= i < |rows| && RowGivesNode(rows[i], extract, u)) <==>
            (exists i :: 0 <= i < |init| && RowGivesNode(init[i], extract, u))
            || RowGivesNode(rows[|rows| - 1], extract, u)
  {
    if exists i :: 0 <= i < |rows| && RowGivesNode(rows[i], extract, u) {
      var i :| 0 <= i < |rows| && RowGivesNode(rows[i], extract, u);
      if i < |init| {
        assert init[i] == rows[i];
      }
    }
    if exists i :: 0 <= i < |init| && RowGivesNode(init[i], extract, u) {
      var i :| 0 <= i < |init| && RowGivesNode(init[i], extract, u);
      assert rows[i] == init[i];
    }
  }

  /** Edges are exactly the (word, linked word) pairs, each once. */
  lemma {:induction false} GraphOfEdges(rows: seq<Dictionary.Row>, extract: (string, string) -> seq<string>, e: Edge)
    ensures e in GraphOf(rows, extract).edges <==>
            exists i :: 0 <= i < |rows| && RowGivesEdge(rows[i], extract, e)
  {
    if rows != [] {
      var init := rows[..|rows| - 1];
      GraphOfEdges(init, extract, e);
      SomeRowGivesEdge(rows, init, extract, e);
    }
  }

  /** An edge comes from some row exactly when it comes from an earlier row or the last. */
  lemma SomeRowGivesEdge(rows: seq<Dictionary.Row>, init: seq<Dictionary.Row>, extract: (string, string) -> seq<string>, e: Edge)
    requires rows != [] && init == rows[..|rows| - 1]
    ensures (exists i :: 0 <= i < |rows| && RowGivesEdge(rows[i], extract, e)) <==>
            (exists i :: 0 <= i < |init| && RowGivesEdge(init[i], extract, e))
            || RowGivesEdge(rows[|rows| - 1], extract, e)
  {
    if exists i :: 0 <= i < |rows| && RowGivesEdge(rows[i], extract, e) {
      var i :| 0 <= i < |rows| && RowGivesEdge(rows[i], extract, e);
      if i < |init| {
        assert init[i] == rows[i];
      }
    }
    if exists i :: 0 <= i < |init| && RowGivesEdge(init[i], extract, e) {
      var i :| 0 <= i < |init| && RowGivesEdge(init[i], extract, e);
      assert rows[i] == init[i];
    }
  }

  /** An extractor that never returns the (lowercased) source word. */
  ghost predicate ExcludesSource(extract: (string, string) -> seq<string>) {
    forall w, d :: Lower(w) !in extract(Lower(w), d)
  }

  /** `extract_linked_words` drops the source word, so the graph has no self-loops. */
  lemma NoSelfLoops(rows: seq<Dictionary.Row>, extract: (string, string) -> seq<string>, e: Edge)
    requires ExcludesSource(extract)
    requires e in GraphOf(rows, extract).edges
    ensures e.0 != e.1
  {
    GraphOfEdges(rows, extract, e);
    var i :| 0 <= i < |rows| && RowGivesEdge(rows[i], extract, e);
    assert Lower(rows[i].word) !in extract(Lower(rows[i].word), rows[i].definition);
  }

  /** The dictionary's extractor satisfies `ExcludesSource`. */
  lemma ExtractorExcludesSource(lexicon: seq<Dictionary.Row>, extract: (string, string) -> seq<string>)
    requires forall w, d :: extract(w, d) == Dictionary.ExtractLinkedWords(lexicon, w, d)
    ensures ExcludesSource(extract)
  {
    forall w, d ensures Lower(w) !in extract(Lower(w), d) {
      if Lower(w) in extract(Lower(w), d) {
        Dictionary.LinkedWordsSound(lexicon, Lower(w), d, Lower(w));
        LowerIdempotent(w);
      }
    }
  }

  // ---------------------------------------------------------------------------
  // Degrees

  function InEdges(g: Graph, v: string): set<Edge> {
    set e | e in g.edges && e.1 == v
  }

  function OutEdges(g: Graph, v: string): set<Edge> {
    set e | e in g.edges && e.0 == v
  }

  /** `G.in_degree(v)` */
  function InDegree(g: Graph, v: string): nat {
    |InEdges(g, v)|
  }

  /** `G.out_degree(v)` */
  function OutDegree(g: Graph, v: string): nat {
    |OutEdges(g, v)|
  }

  function SumIn(g: Graph, ns: seq<string>): nat {
    if ns == [] then 0 else SumIn(g, ns[..|ns| - 1]) + InDegree(g, ns[|ns| - 1])
  }

  function SumOut(g: Graph, ns: seq<string>): nat {
    if ns == [] then 0 else SumOut(g, ns[..|ns| - 1]) + OutDegree(g, ns[|ns| - 1])
  }

  lemma {:induction false} SumInCounts(g: Graph, ns: seq<string>)
    requires DistinctNodes(ns)
    ensures SumIn(g, ns) == |set e | e in g.edges && e.1 in ns|
  {
    if ns == [] {
      assert (set e | e in g.edges && e.1 in ns) == {};
    } else {
      var init := ns[..|ns| - 1];
      var v := ns[|ns| - 1];
      LastIsNew(ns, init);
      SumInCounts(g, init);
      InEdgesSplit(g, ns, init, v);
    }
  }

  lemma {:induction false} SumOutCounts(g: Graph, ns: seq<string>)
    requires DistinctNodes(ns)
    ensures SumOut(g, ns) == |set e | e in g.edges && e.0 in ns|
  {
    if ns == [] {
      assert (set e | e in g.edges && e.0 in ns) == {};
    } else {
      var init := ns[..|ns| - 1];
      var v := ns[|ns| - 1];
      LastIsNew(ns, init);
      SumOutCounts(g, init);
      OutEdgesSplit(g, ns, init, v);
    }
  }

  /** Without its last node, a list of distinct nodes is still distinct and does not
      hold that node. */
  lemma LastIsNew(ns: seq<string>, init: seq<string>)
    requires DistinctNodes(ns) && ns != [] && init == ns[..|ns| - 1]
    ensures DistinctNodes(init) && ns[|ns| - 1] !in init && ns == init + [ns[|ns| - 1]]
  {
  }

  /** The edges into `init + [v]` are those into `init` and, apart from them, those into `v`. */
  lemma InEdgesSplit(g: Graph, ns: seq<string>, init: seq<string>, v: string)
    requires ns == init + [v] && v !in init
    ensures (set e | e in g.edges && e.1 in ns) == (set e | e in g.edges && e.1 in init) + InEdges(g, v)
    ensures (set e | e in g.edges && e.1 in init) !! InEdges(g, v)
  {
  }

  /** The edges out of `init + [v]` are those out of `init` and, apart from them, those out of `v`. */
  lemma OutEdgesSplit(g: Graph, ns: seq<string>, init: seq<string>, v: string)
    requires ns == init + [v] && v !in init
    ensures (set e | e in g.edges && e.0 in ns) == (set e | e in g.edges && e.0 in init) + OutEdges(g, v)
    ensures (set e | e in g.edges && e.0 in init) !! OutEdges(g, v)
  {
  }

  /** Handshake: in-degrees and out-degrees both sum to the number of edges. */
  lemma DegreeSums(g: Graph)
    requires WellFormed(g)
    ensures SumIn(g, g.nodes) == |g.edges|
    ensures SumOut(g, g.nodes) == |g.edges|
  {
    SumInCounts(g, g.nodes);
    SumOutCounts(g, g.nodes);
    assert (set e | e in g.edges && e.1 in g.nodes) == g.edges;
    assert (set e | e in g.edges && e.0 in g.nodes) == g.edges;
  }

  /** `dict(G.in_degree()).items()`, in node order. */
  function InDegrees(g: Graph): (r: seq<Ranked>)
    ensures |r| == |g.nodes|
    ensures forall i :: 0 <= i < |r| ==> r[i] == (g.nodes[i], InDegree(g, g.nodes[i]))
  {
    seq(|g.nodes|, i requires 0 <= i < |g.nodes| => (g.nodes[i], InDegree(g, g.nodes[i]) as int))
  }

  /** `dict(G.out_degree()).items()`, in node order. */
  function OutDegrees(g: Graph): (r: seq<Ranked>)
    ensures |r| == |g.nodes|
    ensures forall i :: 0 <= i < |r| ==> r[i] == (g.nodes[i], OutDegree(g, g.nodes[i]))
  {
    seq(|g.nodes|, i requires 0 <= i < |g.nodes| => (g.nodes[i], OutDegree(g, g.nodes[i]) as int))
  }

  /** The total degrees of `get_top_words`, in node order. */
  function TotalDegrees(g: Graph): (r: seq<Ranked>)
    ensures |r| == |g.nodes|
    ensures forall i :: 0 <= i < |r| ==> r[i] == (g.nodes[i], InDegree(g, g.nodes[i]) + OutDegree(g, g.nodes[i]))
  {
    seq(|g.nodes|, i requires 0 <= i < |g.nodes| =>
      (g.nodes[i], (InDegree(g, g.nodes[i]) + OutDegree(g, g.nodes[i])) as int))
  }

  /** `sorted(items, key=degree, reverse=True)[:k]` */
  function TopK(items: seq<Ranked>, k: int): (r: seq<Ranked>)
    ensures SortedDesc(r)
    ensures forall x :: x in r ==> x in items
    ensures multiset(r) <= multiset(items)
    ensures k >= 0 ==> |r| == if k < |items| then k else |items|
  {
    var sorted := SortDesc(items);
    var r := SliceTo(sorted, k);
    assert sorted == r + sorted[|r|..];
    assert multiset(sorted) == multiset(r) + multiset(sorted[|r|..]);
    forall x | x in r ensures x in items {
      assert x in multiset(sorted);
    }
    r
  }

  /** A ranking with distinct names holds each entry at most once. */
  lemma {:induction false} DistinctNamesOnce(items: seq<Ranked>, x: Ranked)
    requires forall i, j :: 0 <= i < j < |items| ==> items[i].0 != items[j].0
    ensures multiset(items)[x] <= 1
  {
    if items != [] {
      var tail := items[1..];
      forall i, j | 0 <= i < j < |tail| ensures tail[i].0 != tail[j].0 {
        assert tail[i] == items[i + 1] && tail[j] == items[j + 1];
      }
      DistinctNamesOnce(tail, x);
      assert items == [items[0]] + tail;
      if x == items[0] {
        forall j | 0 <= j < |tail| ensures tail[j] != x {
          assert tail[j] == items[j + 1];
        }
        assert x !in tail;
      }
    }
  }

  /** An entry at two positions of a sequence occurs in it at least twice. */
  lemma TwiceCounted(r: seq<Ranked>, i: nat, j: nat)
    requires i < j < |r| && r[i] == r[j]
    ensures multiset(r)[r[i]] >= 2
  {
    assert r == r[..j] + r[j..];
    assert r[i] in r[..j];
    assert r[j..][0] == r[j];
  }

  /** Cutting a ranking with distinct names keeps the names distinct. */
  lemma TopKNamesDistinct(items: seq<Ranked>, k: int)
    requires forall i, j :: 0 <= i < j < |items| ==> items[i].0 != items[j].0
    ensures var r := TopK(items, k); forall i, j :: 0 <= i < j < |r| ==> r[i].0 != r[j].0
  {
    var r := TopK(items, k);
    forall i, j | 0 <= i < j < |r| ensures r[i].0 != r[j].0 {
      DistinctNamesOnce(items, r[i]);
      if r[i] == r[j] {
        TwiceCounted(r, i, j);
      }
      assert r[i] != r[j];
      assert r[i] in items && r[j] in items;
      var a :| 0 <= a < |items| && items[a] == r[i];
      var b :| 0 <= b < |items| && items[b] == r[j];
      assert a != b;
    }
  }

  /** The slice really is the top: an entry left out ranks no higher than any entry kept. */
  lemma TopKIsTop(items: seq<Ranked>, k: int, x: Ranked, y: Ranked)
    requires x in items && x !in TopK(items, k) && y in TopK(items, k)
    ensures x.1 <= y.1
  {
    var sorted := SortDesc(items);
    var r := TopK(items, k);
    assert r == sorted[..|r|];
    assert x in multiset(sorted);
    var j :| 0 <= j < |sorted| && sorted[j] == x;
    var i :| 0 <= i < |r| && r[i] == y;
    assert j >= |r|;
  }

  /** Ties keep their order: the entries of any one degree in the slice are a prefix
      of that degree's entries in the input. */
  lemma TopKStable(items: seq<Ranked>, k: int, d: int)
    ensures WithKey(TopK(items, k), d) <= WithKey(items, d)
  {
    var sorted := SortDesc(items);
    var r := TopK(items, k);
    SortDescStable(items, d);
    assert sorted == r + sorted[|r|..];
    WithKeyAppend(r, sorted[|r|..], d);
  }

  // ---------------------------------------------------------------------------
  // Cycles and components, as networkx reports them

  /** A simple cycle: distinct nodes, each with an edge to the next and the last to
      the first. */
  ghost predicate IsSimpleCycle(g: Graph, c: seq<string>) {
    |c| > 0 && DistinctNodes(c)
    && (forall i :: 0 <= i < |c| - 1 ==> (c[i], c[i + 1]) in g.edges)
    && (c[|c| - 1], c[0]) in g.edges
  }

  /** Without self-loops, every simple cycle has at least two words. */
  lemma CycleHasTwoWords(g: Graph, c: seq<string>)
    requires forall e :: e in g.edges ==> e.0 != e.1
    requires IsSimpleCycle(g, c)
    ensures |c| >= 2
  {
  }

  /** Weak components as reported: non-empty, pairwise disjoint, covering the nodes. */
  ghost predicate IsComponentCover(g: Graph, components: seq<set<string>>) {
    (forall i :: 0 <= i < |components| ==> components[i] != {})
    && (forall i, j :: 0 <= i < j < |components| ==> components[i] !! components[j])
    && (forall v :: v in g.nodes <==> exists i :: 0 <= i < |components| && v in components[i])
  }

  /** `max(len(c) for c in weakly_connected) if weakly_connected else 0` */
  function LargestSize(components: seq<set<string>>): (m: nat)
    ensures forall i :: 0 <= i < |components| ==> |components[i]| <= m
    ensures components == [] ==> m == 0
    ensures components != [] ==> exists i :: 0 <= i < |components| && |components[i]| == m
  {
    if components == [] then 0
    else
      var rest := LargestSize(components[1..]);
      assert forall i :: 1 <= i < |components| ==> components[i] == components[1..][i - 1];
      if |components[0]| >= rest then |components[0]|
      else
        var i :| 0 <= i < |components[1..]| && |components[1..][i]| == rest;
        assert components[i + 1] == components[1..][i];
        rest
  }

  /** A non-empty graph has a largest component of at least one word. */
  lemma LargestComponentPositive(g: Graph, components: seq<set<string>>)
    requires IsComponentCover(g, components) && g.nodes != []
    ensures LargestSize(components) >= 1
  {
    assert g.nodes[0] in g.nodes;
    var i :| 0 <= i < |components| && g.nodes[0] in components[i];
  }

  // ---------------------------------------------------------------------------
  // Reports

  datatype Statistics =
    | EmptyGraph
    | Statistics(
        nodeCount: nat,
        edgeCount: nat,
        inDegreeSum: nat,        // numerator of `average_in_degree`
        outDegreeSum: nat,       // numerator of `average_out_degree`
        topByInDegree: seq<Ranked>,
        topByOutDegree: seq<Ranked>,
        largestComponentSize: nat,
        cycleCount: nat,
        sampleCycles: seq<seq<string>>)

  /** `get_graph_statistics()`, with networkx's cycles and components as arguments. */
  function GraphStatistics(g: Graph, cycles: seq<seq<string>>, components: seq<set<string>>): (s: Statistics)
    ensures s.EmptyGraph? <==> g.nodes == []
    ensures s.Statistics? ==>
      && s.nodeCount == |g.nodes| && s.edgeCount == |g.edges|
      && |s.topByInDegree| <= 10 && |s.topByOutDegree| <= 10
      && SortedDesc(s.topByInDegree) && SortedDesc(s.topByOutDegree)
      && (forall x :: x in s.topByInDegree ==> x.0 in g.nodes && x.1 == InDegree(g, x.0))
      && (forall x :: x in s.topByOutDegree ==> x.0 in g.nodes && x.1 == OutDegree(g, x.0))
      && s.cycleCount == |cycles| && |s.sampleCycles| <= 3 && s.sampleCycles <= cycles
    ensures s.Statistics? ==>
      && s.topByInDegree == TopK(InDegrees(g), 10)
      && s.topByOutDegree == TopK(OutDegrees(g), 10)
      && s.largestComponentSize == LargestSize(components)
  {
    if g.nodes == [] then EmptyGraph
    else
      var topIn := TopK(InDegrees(g), 10);
      var topOut := TopK(OutDegrees(g), 10);
      var sample := SliceTo(SliceTo(cycles, 5), 3);
      Statistics(|g.nodes|, |g.edges|, SumIn(g, g.nodes), SumOut(g, g.nodes), topIn, topOut,
                 LargestSize(components), |cycles|, sample)
  }

  /** For a well-formed non-empty graph both degree sums equal the edge count, and the
      sample cycles are the first three of the reported ones. */
  lemma StatisticsFacts(g: Graph, cycles: seq<seq<string>>, components: seq<set<string>>)
    requires WellFormed(g) && g.nodes != []
    ensures GraphStatistics(g, cycles, components).inDegreeSum == |g.edges|
    ensures GraphStatistics(g, cycles, components).outDegreeSum == |g.edges|
    ensures GraphStatistics(g, cycles, components).sampleCycles == SliceTo(cycles, 3)
  {
    DegreeSums(g);
  }

  datatype TopWord = TopWord(word: string, totalDegree: int, inDegree: nat, outDegree: nat)

  /** `get_top_words(limit)`: nodes by total degree, highest first, cut with `[:limit]`. */
  function TopWords(g: Graph, limit: int): (r: seq<TopWord>)
    ensures limit >= 0 ==> |r| == if limit < |g.nodes| then limit else |g.nodes|
    ensures forall i :: 0 <= i < |r| ==>
              r[i].word in g.nodes && r[i].inDegree == InDegree(g, r[i].word)
              && r[i].outDegree == OutDegree(g, r[i].word)
              && r[i].totalDegree == r[i].inDegree + r[i].outDegree
    ensures forall i, j :: 0 <= i < j < |r| ==> r[i].totalDegree >= r[j].totalDegree
    ensures |r| == |TopK(TotalDegrees(g), limit)|
    ensures forall i :: 0 <= i < |r| ==> (r[i].word, r[i].totalDegree) == TopK(TotalDegrees(g), limit)[i]
  {
    var top := TopK(TotalDegrees(g), limit);
    forall x | x in top ensures x.0 in g.nodes && x.1 == InDegree(g, x.0) + OutDegree(g, x.0) {
      var k :| 0 <= k < |TotalDegrees(g)| && TotalDegrees(g)[k] == x;
    }
    seq(|top|, i requires 0 <= i < |top| =>
      TopWord(top[i].0, top[i].1, InDegree(g, top[i].0), OutDegree(g, top[i].0)))
  }

  /** The top words really are the top: a node left out has a total degree no higher
      than any word listed. */
  lemma TopWordsAreTop(g: Graph, limit: int, v: string, i: nat)
    requires v in g.nodes
    requires forall j :: 0 <= j < |TopWords(g, limit)| ==> TopWords(g, limit)[j].word != v
    requires i < |TopWords(g, limit)|
    ensures InDegree(g, v) + OutDegree(g, v) <= TopWords(g, limit)[i].totalDegree
  {
    var r := TopWords(g, limit);
    var items := TotalDegrees(g);
    var top := TopK(items, limit);
    var k :| 0 <= k < |g.nodes| && g.nodes[k] == v;
    var x := items[k];
    forall j | 0 <= j < |top| ensures top[j] != x {
      assert top[j].0 == r[j].word;
    }
    TopKIsTop(items, limit, x, top[i]);
  }

  /** In a well-formed graph no word is listed twice. */
  lemma TopWordsDistinct(g: Graph, limit: int)
    requires WellFormed(g)
    ensures var r := TopWords(g, limit); forall i, j :: 0 <= i < j < |r| ==> r[i].word != r[j].word
  {
    var items := TotalDegrees(g);
    forall i, j | 0 <= i < j < |items| ensures items[i].0 != items[j].0 {
      assert items[i].0 == g.nodes[i] && items[j].0 == g.nodes[j];
    }
    TopKNamesDistinct(items, limit);
  }

  datatype CycleReport = CycleReport(totalCycles: nat, cycles: seq<seq<string>>)

  /** `find_cycles()`: the full count, but at most the first 20 cycles. */
  function FindCycles(cycles: seq<seq<string>>): (r: CycleReport)
    ensures r.totalCycles == |cycles|
    ensures |r.cycles| == if |cycles| < 20 then |cycles| else 20
    ensures r.cycles <= cycles
  {
    CycleReport(|cycles|, SliceTo(cycles, 20))
  }

  // ---------------------------------------------------------------------------
  // The service and its cache

  /** `GraphService`: the rows of `words`, the extractor and the cached graph. */
  class GraphService {
    const rows: seq<Dictionary.Row>
    const extract: (string, string) -> seq<string>
    var graphCache: Option<Graph>

    /** The cache, once filled, holds the graph of the rows. */
    ghost predicate Valid()
      reads this
    {
      graphCache.Some? ==> graphCache.value == GraphOf(rows, extract)
    }

    constructor(rows: seq<Dictionary.Row>, extract: (string, string) -> seq<string>)
      ensures this.rows == rows && this.extract == extract
      ensures graphCache == None
      ensures Valid()
    {
      this.rows := rows;
      this.extract := extract;
      graphCache := None;
    }

    /** `_build_graph()`: returns the cached graph if there is one; otherwise scans the
        rows, adding each lowercased word and an edge to each of its linked words, and
        caches the result. */
    method BuildGraph() returns (g: Graph)
      requires Valid()
      modifies this
      ensures Valid()
      ensures g == GraphOf(rows, extract)
      ensures graphCache == Some(g)
      ensures old(graphCache).Some? ==> graphCache == old(graphCache)
    {
      if graphCache.Some? {
        return graphCache.value;
      }
      g := ScanIntoGraph(rows, extract);
      graphCache := Some(g);
    }

    /** `get_top_words(limit)` on the (possibly cached) graph. */
    method GetTopWords(limit: int) returns (r: seq<TopWord>)
      requires Valid()
      modifies this
      ensures Valid() && graphCache == Some(GraphOf(rows, extract))
      ensures r == TopWords(GraphOf(rows, extract), limit)
    {
      var g := BuildGraph();
      r := TopWords(g, limit);
    }
  }
}
