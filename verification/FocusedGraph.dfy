/**
 * The focused review-memory graph: the nodes that match a finding, their direct neighbours and
 * the edges between them, cut to ten nodes and twelve edges, with a flag that is to say whether
 * anything was cut.
 */
module FocusedGraph {
  import opened Options
  import opened Sequences
  import Separators

  // `matches` is the verdict of the text match between node and finding.
  datatype Node = Node(id: string, matches: bool)

  datatype Edge = Edge(src: string, kind: string, dst: string, confidence: real)

  datatype Graph = Graph(nodes: seq<Node>, edges: seq<Edge>, truncated: bool)

  const MAX_NODES := 10
  const MAX_EDGES := 12

  function Key(e: Edge): string {
    e.src + "\0" + e.kind + "\0" + e.dst
  }

  function IdOf(): Node -> string {
    (n: Node) => n.id
  }

  function KeyOf(): Edge -> string {
    (e: Edge) => Key(e)
  }

  // ----- the one-hop neighbourhood, unbounded -----

  function DirectIds(g: Graph): set<string> {
    set n | n in g.nodes && n.matches :: n.id
  }

  predicate Incident(direct: set<string>, e: Edge) {
    e.src in direct || e.dst in direct
  }

  function IncidentTo(direct: set<string>): Edge -> bool {
    (e: Edge) => Incident(direct, e)
  }

  function HopEdges(g: Graph): seq<Edge> {
    Filter(g.edges, IncidentTo(DirectIds(g)))
  }

  ghost function HopKeys(edges: seq<Edge>, direct: set<string>): set<string> {
    set e | e in edges && Incident(direct, e) :: Key(e)
  }

  ghost function HopIds(edges: seq<Edge>, direct: set<string>): set<string> {
    direct
    + (set e | e in edges && Incident(direct, e) :: e.src)
    + (set e | e in edges && Incident(direct, e) :: e.dst)
  }

  function WithIdIn(ids: set<string>): Node -> bool {
    (n: Node) => n.id in ids
  }

  ghost function HopNodes(g: Graph): seq<Node> {
    Filter(g.nodes, WithIdIn(HopIds(g.edges, DirectIds(g))))
  }

  // ----- the bounded graph -----

  function KeptEdge(keys: set<string>, ids: set<string>): Edge -> bool {
    (e: Edge) => Key(e) in keys && e.src in ids && e.dst in ids
  }

  function Bounded(g: Graph, ids: set<string>, keys: set<string>): Graph {
    var nodes := Take(Filter(g.nodes, WithIdIn(ids)), MAX_NODES);
    var kept := set n | n in nodes :: n.id;
    var edges := Take(Filter(g.edges, KeptEdge(keys, kept)), MAX_EDGES);
    Graph(nodes, edges, g.truncated || |nodes| < |ids| || |edges| < |keys|)
  }

  ghost function Focused(g: Graph): Graph {
    Bounded(g, HopIds(g.edges, DirectIds(g)), HopKeys(g.edges, DirectIds(g)))
  }

  method BuildFocusedReviewMemoryGraph(g: Graph) returns (r: Option<Graph>)
    ensures r.None? <==> forall n :: n in g.nodes ==> !n.matches
    ensures r.Some? ==> r.value == Focused(g)
  {
    if g.nodes == [] {
      return None;
    }
    var direct := DirectIds(g);
    if direct == {} {
      forall n | n in g.nodes ensures !n.matches {
        assert n.matches ==> n.id in direct;
      }
      return None;
    }
    var id :| id in direct;
    assert exists n :: n in g.nodes && n.matches && n.id == id;
    var edgeIds, nodeIds := Neighbourhood(g.edges, direct);
    r := Some(Bounded(g, nodeIds, edgeIds));
  }

  // The loop over the edges.
  method Neighbourhood(edges: seq<Edge>, direct: set<string>) returns (edgeIds: set<string>, nodeIds: set<string>)
    ensures edgeIds == HopKeys(edges, direct) && nodeIds == HopIds(edges, direct)
  {
    edgeIds, nodeIds := {}, direct;
    for i := 0 to |edges|
      invariant edgeIds == HopKeys(edges[..i], direct)
      invariant nodeIds == HopIds(edges[..i], direct)
    {
      var e := edges[i];
      assert edges[..i + 1] == edges[..i] + [e];
      HopStep(edges[..i], e, direct);
      if e.src in direct || e.dst in direct {
        edgeIds := edgeIds + {Key(e)};
        nodeIds := nodeIds + {e.src} + {e.dst};
      }
    }
    assert edges[..|edges|] == edges;
  }

  lemma HopStep(edges: seq<Edge>, e: Edge, direct: set<string>)
    ensures Incident(direct, e) ==>
              && HopKeys(edges + [e], direct) == HopKeys(edges, direct) + {Key(e)}
              && HopIds(edges + [e], direct) == HopIds(edges, direct) + {e.src} + {e.dst}
    ensures !Incident(direct, e) ==>
              && HopKeys(edges + [e], direct) == HopKeys(edges, direct)
              && HopIds(edges + [e], direct) == HopIds(edges, direct)
  {
  }

  // ----- the neighbourhood, end by end -----

  // The id is that of a node the finding matches.
  ghost predicate MatchedId(g: Graph, id: string) {
    exists n :: n in g.nodes && n.matches && n.id == id
  }

  // Some edge joins the id to a matched one, in either direction.
  ghost predicate Neighbour(g: Graph, id: string) {
    exists e :: e in g.edges && ((MatchedId(g, e.src) && e.dst == id) || (MatchedId(g, e.dst) && e.src == id))
  }

  // An edge belongs to the neighbourhood exactly if one of its ends is matched, whichever it is;
  // an id does if it is matched or at the other end of such an edge.
  lemma NeighbourhoodExactly(g: Graph)
    ensures forall e :: e in HopEdges(g) <==> e in g.edges && (MatchedId(g, e.src) || MatchedId(g, e.dst))
    ensures forall id :: id in HopIds(g.edges, DirectIds(g)) <==>
              || MatchedId(g, id)
              || Neighbour(g, id)
    ensures forall n :: n in HopNodes(g) <==> n in g.nodes && n.id in HopIds(g.edges, DirectIds(g))
  {
    var direct := DirectIds(g);
    assert forall id :: id in direct <==> MatchedId(g, id);
    forall id
      ensures id in HopIds(g.edges, direct) <==>
                || MatchedId(g, id)
                || Neighbour(g, id)
    {
      if id in HopIds(g.edges, direct) && id !in direct {
        var e :| e in g.edges && Incident(direct, e) && (e.src == id || e.dst == id);
        assert (MatchedId(g, e.src) && e.dst == id) || (MatchedId(g, e.dst) && e.src == id);
      }
    }
  }

  // ----- always -----

  lemma FocusedIsClosed(g: Graph)
    ensures var r := Focused(g);
      && |r.nodes| <= 10 && |r.edges| <= 12
      && (forall n :: n in r.nodes ==>
            && n in g.nodes
            && (MatchedId(g, n.id) || Neighbour(g, n.id)))
      && (forall e :: e in r.edges ==>
            && e in g.edges
            && (exists n :: n in r.nodes && n.id == e.src)
            && (exists n :: n in r.nodes && n.id == e.dst))
  {
    NeighbourhoodExactly(g);
    var direct := DirectIds(g);
    var r := Focused(g);
    var all := Filter(g.nodes, WithIdIn(HopIds(g.edges, direct)));
    assert forall n :: n in r.nodes ==> n in all;
    var kept := set n | n in r.nodes :: n.id;
    var edges := Filter(g.edges, KeptEdge(HopKeys(g.edges, direct), kept));
    forall e | e in r.edges
      ensures e in g.edges && e.src in kept && e.dst in kept
    {
      assert e in edges;
    }
  }

  // ----- when the flag tells the truth -----

  ghost predicate Complete(g: Graph) {
    Focused(g).nodes == HopNodes(g) && Focused(g).edges == HopEdges(g)
  }

  // The ids of the first ten nodes of the neighbourhood.
  ghost function FirstIds(g: Graph): set<string> {
    Image(Take(HopNodes(g), MAX_NODES), IdOf())
  }

  // The edges that could be shown beside those nodes.
  ghost function FirstEdges(g: Graph): seq<Edge> {
    Filter(g.edges, KeptEdge(HopKeys(g.edges, DirectIds(g)), FirstIds(g)))
  }

  // Some edge of the neighbourhood has an end beyond the first ten nodes, or at no node at all.
  ghost predicate EdgeLosesAnEnd(g: Graph) {
    exists e :: e in HopEdges(g) && !(e.src in FirstIds(g) && e.dst in FirstIds(g))
  }

  // Some edge away from the direct matches is shown, having the key of one that is not.
  ghost predicate ShowsForeignEdge(g: Graph) {
    exists e :: e in Take(FirstEdges(g), MAX_EDGES) && !Incident(DirectIds(g), e)
  }

  lemma {:induction false} FilterTwice<T>(s: seq<T>, p: T -> bool, q: T -> bool, both: T -> bool)
    requires forall x :: both(x) == (p(x) && q(x))
    ensures Filter(Filter(s, p), q) == Filter(s, both)
  {
    if s != [] {
      FilterTwice(s[1..], p, q, both);
      FilterConcat(if p(s[0]) then [s[0]] else [], Filter(s[1..], p), q);
    }
  }

  // Where no edge of the neighbourhood loses an end, its edges are the incident first edges.
  lemma HopEdgesAreFirst(g: Graph)
    requires !EdgeLosesAnEnd(g)
    ensures Filter(FirstEdges(g), IncidentTo(DirectIds(g))) == HopEdges(g)
  {
    var direct, keys := DirectIds(g), HopKeys(g.edges, DirectIds(g));
    var kept := KeptEdge(keys, FirstIds(g));
    var both := (e: Edge) => kept(e) && Incident(direct, e);
    FilterTwice(g.edges, kept, IncidentTo(direct), both);
    forall e | e in g.edges
      ensures both(e) == Incident(direct, e)
    {
      if Incident(direct, e) {
        assert e in HopEdges(g);
      }
    }
    FilterSame(g.edges, both, IncidentTo(direct));
  }

  lemma FocusedTakesFirst(g: Graph)
    ensures Focused(g).nodes == Take(HopNodes(g), MAX_NODES)
    ensures Focused(g).edges == Take(FirstEdges(g), MAX_EDGES)
  {
    assert (set n | n in Take(HopNodes(g), MAX_NODES) :: n.id) == FirstIds(g);
  }

  // If only matches are taken, and there is room for all, exactly the matches are.
  lemma TakenAreMatches<T>(s: seq<T>, p: T -> bool, n: nat)
    requires |Filter(s, p)| <= n && forall x :: x in Take(s, n) ==> p(x)
    ensures Take(s, n) == Filter(s, p)
  {
    var taken := Take(s, n);
    var rest := s[|taken|..];
    assert s == taken + rest;
    FilterConcat(taken, rest, p);
    FilterAll(taken, p);
    assert |s| <= n ==> rest == [];
  }

  lemma NothingLostOrForeign(g: Graph)
    requires |HopEdges(g)| <= MAX_EDGES && !EdgeLosesAnEnd(g) && !ShowsForeignEdge(g)
    ensures Take(FirstEdges(g), MAX_EDGES) == HopEdges(g)
  {
    HopEdgesAreFirst(g);
    TakenAreMatches(FirstEdges(g), IncidentTo(DirectIds(g)), MAX_EDGES);
  }

  lemma CompleteLosesNothing(g: Graph)
    requires Take(FirstEdges(g), MAX_EDGES) == HopEdges(g)
    ensures !EdgeLosesAnEnd(g) && !ShowsForeignEdge(g)
  {
    forall e | e in HopEdges(g)
      ensures e.src in FirstIds(g) && e.dst in FirstIds(g) && Incident(DirectIds(g), e)
    {
      assert e in FirstEdges(g);
    }
  }

  // Exactly when nothing of the neighbourhood is missing and nothing else is shown.
  lemma CompleteExactly(g: Graph)
    ensures Complete(g) <==>
              && |HopNodes(g)| <= 10 && |HopEdges(g)| <= 12
              && !EdgeLosesAnEnd(g) && !ShowsForeignEdge(g)
  {
    FocusedTakesFirst(g);
    if Take(FirstEdges(g), MAX_EDGES) == HopEdges(g) {
      CompleteLosesNothing(g);
    } else if |HopEdges(g)| <= MAX_EDGES && !EdgeLosesAnEnd(g) && !ShowsForeignEdge(g) {
      NothingLostOrForeign(g);
    }
  }

  // The graphs on which the flag is silent about a cut: the flag only counts, and the counts fit.
  lemma FlagMissesExactly(g: Graph)
    ensures !Focused(g).truncated && !Complete(g) <==>
              && !g.truncated
              && |HopIds(g.edges, DirectIds(g))| <= |HopNodes(g)|
              && |HopIds(g.edges, DirectIds(g))| <= MAX_NODES
              && |HopKeys(g.edges, DirectIds(g))| <= |FirstEdges(g)|
              && |HopKeys(g.edges, DirectIds(g))| <= MAX_EDGES
              && (|HopNodes(g)| > MAX_NODES || |HopEdges(g)| > MAX_EDGES || EdgeLosesAnEnd(g) || ShowsForeignEdge(g))
  {
    CompleteExactly(g);
    FocusedTakesFirst(g);
  }

  // ----- with distinct node ids -----

  // Edges with one key join the same nodes.
  ghost predicate FaithfulKeys(g: Graph) {
    forall e, f :: e in g.edges && f in g.edges && Key(e) == Key(f) ==> e.src == f.src && e.dst == f.dst
  }

  ghost predicate EndpointsPresent(g: Graph) {
    HopIds(g.edges, DirectIds(g)) <= Image(g.nodes, IdOf())
  }

  lemma FilteredIds(nodes: seq<Node>, ids: set<string>)
    ensures Image(Filter(nodes, WithIdIn(ids)), IdOf()) == ids * Image(nodes, IdOf())
  {
  }

  lemma NodeCount(nodes: seq<Node>, ids: set<string>, present: set<string>)
    requires DistinctBy(nodes, IdOf()) && present == Image(nodes, IdOf())
    ensures |Filter(nodes, WithIdIn(ids))| == |ids * present|
    ensures |ids * present| <= |ids|
    ensures |ids * present| == |ids| <==> ids <= present
    ensures ids <= present ==> ids * present == ids
  {
    FilterKeepsDistinct(nodes, WithIdIn(ids), IdOf());
    ImageSize(Filter(nodes, WithIdIn(ids)), IdOf());
    FilteredIds(nodes, ids);
    SubsetSize(ids * present, ids);
    if ids <= present {
      assert ids * present == ids;
    }
  }

  lemma HopNodeCount(g: Graph)
    requires DistinctBy(g.nodes, IdOf())
    ensures var ids := HopIds(g.edges, DirectIds(g));
      && |HopNodes(g)| <= |ids|
      && (|HopNodes(g)| == |ids| <==> EndpointsPresent(g))
      && (EndpointsPresent(g) ==> Image(HopNodes(g), IdOf()) == ids)
  {
    var ids := HopIds(g.edges, DirectIds(g));
    NodeCount(g.nodes, ids, Image(g.nodes, IdOf()));
    FilteredIds(g.nodes, ids);
  }

  lemma SubsetSize<T>(a: set<T>, b: set<T>)
    requires a <= b
    ensures |a| <= |b| && (|a| == |b| ==> a == b)
  {
    assert b == a + (b - a);
    assert |b| == |a| + |b - a|;
  }

  lemma HopEdgesAreKept(g: Graph)
    requires FaithfulKeys(g)
    ensures var direct := DirectIds(g);
            Filter(g.edges, KeptEdge(HopKeys(g.edges, direct), HopIds(g.edges, direct))) == HopEdges(g)
  {
    var direct := DirectIds(g);
    var keys, ids := HopKeys(g.edges, direct), HopIds(g.edges, direct);
    forall e | e in g.edges
      ensures KeptEdge(keys, ids)(e) == Incident(direct, e)
    {
      if Key(e) in keys {
        var f :| f in g.edges && Incident(direct, f) && Key(f) == Key(e);
      }
    }
    FilterSame(g.edges, KeptEdge(keys, ids), IncidentTo(direct));
  }

  lemma HopKeyCount(g: Graph)
    ensures |HopKeys(g.edges, DirectIds(g))| <= |HopEdges(g)|
    ensures DistinctBy(g.edges, KeyOf()) ==> |HopKeys(g.edges, DirectIds(g))| == |HopEdges(g)|
  {
    var direct := DirectIds(g);
    ImageSize(HopEdges(g), KeyOf());
    assert HopKeys(g.edges, direct) == Image(HopEdges(g), KeyOf());
    if DistinctBy(g.edges, KeyOf()) {
      FilterKeepsDistinct(g.edges, IncidentTo(direct), KeyOf());
    }
  }

  // With distinct node ids, one family of graphs is left: more than twelve edges to keep, but at
  // most twelve different edge keys among them.
  lemma FlagMissesWithDistinctIds(g: Graph)
    requires DistinctBy(g.nodes, IdOf()) && FaithfulKeys(g)
    ensures !Focused(g).truncated && !Complete(g) <==>
              && !g.truncated
              && EndpointsPresent(g)
              && |HopIds(g.edges, DirectIds(g))| <= MAX_NODES
              && |HopKeys(g.edges, DirectIds(g))| <= MAX_EDGES < |HopEdges(g)|
  {
    HopNodeCount(g);
    HopKeyCount(g);
    HopEdgesAreKept(g);
    var r := Focused(g);
    var ids := HopIds(g.edges, DirectIds(g));
    if |r.nodes| >= |ids| {
      assert r.nodes == HopNodes(g);
      assert (set n | n in r.nodes :: n.id) == Image(r.nodes, IdOf());
      assert r.edges == Take(HopEdges(g), MAX_EDGES);
    }
  }

  // And, with distinct keys, the flag is set exactly if the graph came cut, an edge of the
  // neighbourhood ends at no node, or ten nodes or twelve edges are exceeded.
  lemma FlagExactly(g: Graph)
    requires DistinctBy(g.nodes, IdOf()) && DistinctBy(g.edges, KeyOf())
    ensures Focused(g).truncated <==>
              || g.truncated
              || !EndpointsPresent(g)
              || |HopNodes(g)| > 10
              || |HopEdges(g)| > 12
  {
    DistinctKeysAreFaithful(g);
    HopNodeCount(g);
    HopKeyCount(g);
    HopEdgesAreKept(g);
    FocusedTakesFirst(g);
    if |HopNodes(g)| <= 10 && EndpointsPresent(g) {
      assert FirstIds(g) == HopIds(g.edges, DirectIds(g));
      assert FirstEdges(g) == HopEdges(g);
    }
  }

  lemma DistinctKeysAreFaithful(g: Graph)
    requires DistinctBy(g.edges, KeyOf())
    ensures FaithfulKeys(g)
  {
  }

  // Hence, with distinct edge keys too, an unset flag means the full one-hop neighbourhood: every
  // matched node, every edge at one, and every node at the other end.
  lemma UnsetFlagMeansComplete(g: Graph)
    requires DistinctBy(g.nodes, IdOf()) && DistinctBy(g.edges, KeyOf())
    ensures !Focused(g).truncated ==>
              && Complete(g)
              && (forall n :: n in g.nodes && n.matches ==> n in Focused(g).nodes)
              && (forall e :: e in g.edges && (MatchedId(g, e.src) || MatchedId(g, e.dst)) ==>
                    && e in Focused(g).edges
                    && (forall n :: n in g.nodes && (n.id == e.src || n.id == e.dst) ==> n in Focused(g).nodes))
  {
    NeighbourhoodExactly(g);
    DistinctKeysAreFaithful(g);
    HopKeyCount(g);
    FlagMissesWithDistinctIds(g);
  }

  // Thirteen records of one relation: one is dropped and the flag stays unset.
  lemma DuplicateKeysHideACut()
    ensures exists g: Graph ::
              && DistinctBy(g.nodes, IdOf())
              && !Focused(g).truncated
              && |Focused(g).edges| < |HopEdges(g)|
  {
    var e := Edge("a", "calls", "a", 1.0);
    var g := Graph([Node("a", true)], seq(13, i => e), false);
    assert g.nodes[0] in g.nodes;
    assert DirectIds(g) == {"a"};
    forall f | f in g.edges ensures f == e {}
    FilterAll(g.edges, IncidentTo({"a"}));
    assert g.edges[0] in g.edges;
    assert HopKeys(g.edges, {"a"}) == {Key(e)};
    assert HopIds(g.edges, {"a"}) == {"a"};
    FlagMissesWithDistinctIds(g);
  }

  // Eleven nodes of one id and no edge: one is dropped and the flag stays unset.
  lemma DuplicateIdsHideACut()
    ensures exists g: Graph ::
              && DistinctBy(g.edges, KeyOf())
              && !Focused(g).truncated
              && |Focused(g).nodes| < |HopNodes(g)|
  {
    var n := Node("a", true);
    var g := Graph(seq(11, i => n), [], false);
    assert g.nodes[0] in g.nodes;
    assert DirectIds(g) == {"a"};
    forall m | m in g.nodes ensures m == n {}
    FilterAll(g.nodes, WithIdIn({"a"}));
    assert HopKeys(g.edges, {"a"}) == {} && HopIds(g.edges, {"a"}) == {"a"};
    FlagMissesExactly(g);
  }

  // ----- faithful keys -----

  // Without a NUL in ids and kinds, equal keys mean the same relation.
  lemma KeyIsInjective(e: Edge, f: Edge)
    requires '\0' !in e.src && '\0' !in f.src && '\0' !in e.kind && '\0' !in f.kind
    requires Key(e) == Key(f)
    ensures e.src == f.src && e.kind == f.kind && e.dst == f.dst
  {
    var left, right := Separators.Join('\0', e.kind, e.dst), Separators.Join('\0', f.kind, f.dst);
    assert Key(e) == Separators.Join('\0', e.src, left) && Key(f) == Separators.Join('\0', f.src, right);
    Separators.SplitsOnce('\0', e.src, left, f.src, right);
    Separators.SplitsOnce('\0', e.kind, e.dst, f.kind, f.dst);
  }
}
