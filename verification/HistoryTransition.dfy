/**
 * The transition between two revisions of a repository graph: the current graph with the removed
 * nodes and the still drawable old edges added, and a state for every node that differs.
 */
module HistoryTransition {
  import opened Options
  import opened Sequences
  import Separators

  // `body` is the serialised node, by which two versions of a node are compared.
  datatype Node = Node(id: string, body: string)

  datatype Edge = Edge(src: string, dst: string, kind: string, payload: string)

  datatype Graph = Graph(nodes: seq<Node>, edges: seq<Edge>)

  datatype NodeState = Added | Removed | Changed

  datatype Transition = Transition(display: Graph, states: map<string, NodeState>)

  function IdOf(): Node -> string {
    (n: Node) => n.id
  }

  function Key(e: Edge): string {
    e.src + "\0" + e.dst + "\0" + e.kind
  }

  ghost predicate UniqueIds(g: Graph) {
    DistinctBy(g.nodes, IdOf())
  }

  ghost function Ids(nodes: seq<Node>): set<string> {
    set n | n in nodes :: n.id
  }

  function Keys(edges: seq<Edge>): set<string> {
    set e | e in edges :: Key(e)
  }

  // `new Map(nodes.map(node => [node.id, node]))`: a later node replaces an earlier one.
  function ById(nodes: seq<Node>): (r: map<string, Node>)
    ensures r.Keys == Ids(nodes)
    ensures forall id :: id in r ==> r[id] in nodes && r[id].id == id
  {
    if nodes == [] then map[] else
      var front, last := nodes[..|nodes| - 1], nodes[|nodes| - 1];
      assert nodes == front + [last];
      ById(front)[last.id := last]
  }

  // The map finds the last node of an id.
  lemma {:induction false} ByIdIsLast(nodes: seq<Node>, id: string) returns (k: nat)
    requires id in Ids(nodes)
    ensures k < |nodes| && nodes[k].id == id && ById(nodes)[id] == nodes[k]
    ensures forall j :: k < j < |nodes| ==> nodes[j].id != id
  {
    var front, last := nodes[..|nodes| - 1], nodes[|nodes| - 1];
    assert nodes == front + [last];
    if last.id == id {
      k := |nodes| - 1;
    } else {
      k := ByIdIsLast(front, id);
    }
  }

  // With unique ids the map finds the node itself.
  lemma ByIdFinds(g: Graph, n: Node)
    requires UniqueIds(g) && n in g.nodes
    ensures n.id in ById(g.nodes) && ById(g.nodes)[n.id] == n
  {
    assert n.id in Ids(g.nodes);
    DistinctTellsApart(g.nodes, IdOf(), ById(g.nodes)[n.id], n);
  }

  function NotIn(ids: set<string>): Node -> bool {
    (n: Node) => n.id !in ids
  }

  ghost function RemovedNodes(previous: Graph, current: Graph): seq<Node> {
    Filter(previous.nodes, NotIn(Ids(current.nodes)))
  }

  // An old edge is drawn if its key is new to the current edges and both ends are visible.
  function Drawable(keys: set<string>, visible: set<string>): Edge -> bool {
    (e: Edge) => Key(e) !in keys && e.src in visible && e.dst in visible
  }

  ghost function VisibleIds(previous: Graph, current: Graph): set<string> {
    Ids(current.nodes + RemovedNodes(previous, current))
  }

  ghost function KeptOldEdges(previous: Graph, current: Graph): seq<Edge> {
    Filter(previous.edges, Drawable(Keys(current.edges), VisibleIds(previous, current)))
  }

  // The node is a new version of one of the previous graph.
  predicate Differs(previous: map<string, Node>, n: Node) {
    n.id in previous && previous[n.id].body != n.body
  }

  ghost predicate HasNewVersion(seen: seq<Node>, previous: map<string, Node>, id: string) {
    exists n :: n in seen && n.id == id && Differs(previous, n)
  }

  // The state of an id, from the nodes of the current graph and the removed ones.
  ghost function StateFor(id: string, previous: map<string, Node>, seen: seq<Node>, removed: seq<Node>)
    : Option<NodeState>
  {
    if id in Ids(seen) then
      if id !in previous then Some(Added) else if HasNewVersion(seen, previous, id) then Some(Changed) else None
    else if id in Ids(removed) then Some(Removed) else None
  }

  function StateAt(states: map<string, NodeState>, id: string): Option<NodeState> {
    if id in states then Some(states[id]) else None
  }

  ghost predicate StatesOf(
    states: map<string, NodeState>, previous: map<string, Node>, seen: seq<Node>, removed: seq<Node>)
  {
    forall id :: StateAt(states, id) == StateFor(id, previous, seen, removed)
  }

  lemma IdsAppend(nodes: seq<Node>, n: Node)
    ensures Ids(nodes + [n]) == Ids(nodes) + {n.id}
  {
  }

  lemma SeenStep(previous: map<string, Node>, seen: seq<Node>, n: Node, id: string)
    ensures StateFor(id, previous, seen + [n], []) ==
              if id != n.id then StateFor(id, previous, seen, [])
              else if id !in previous then Some(Added)
              else if Differs(previous, n) then Some(Changed)
              else StateFor(id, previous, seen, [])
  {
  }

  // The first loop: added and changed nodes.
  method StateNodes(previousById: map<string, Node>, nodes: seq<Node>) returns (states: map<string, NodeState>)
    ensures StatesOf(states, previousById, nodes, [])
  {
    states := map[];
    for i := 0 to |nodes|
      invariant StatesOf(states, previousById, nodes[..i], [])
    {
      var n := nodes[i];
      assert nodes[..i + 1] == nodes[..i] + [n];
      ghost var before := states;
      if n.id !in previousById {
        states := states[n.id := Added];
      } else if previousById[n.id].body != n.body {
        states := states[n.id := Changed];
      }
      forall id
        ensures StateAt(states, id) == StateFor(id, previousById, nodes[..i + 1], [])
      {
        assert StateAt(before, id) == StateFor(id, previousById, nodes[..i], []);
        SeenStep(previousById, nodes[..i], n, id);
      }
    }
    assert nodes[..|nodes|] == nodes;
  }

  // The second loop: removed nodes.
  method StateRemoved(given: map<string, NodeState>, ghost previousById: map<string, Node>, ghost nodes: seq<Node>,
                      removed: seq<Node>)
    returns (states: map<string, NodeState>)
    requires StatesOf(given, previousById, nodes, [])
    requires forall n :: n in removed ==> n.id !in Ids(nodes)
    ensures StatesOf(states, previousById, nodes, removed)
  {
    states := given;
    for i := 0 to |removed|
      invariant StatesOf(states, previousById, nodes, removed[..i])
    {
      assert removed[i] in removed;
      assert removed[..i + 1] == removed[..i] + [removed[i]];
      IdsAppend(removed[..i], removed[i]);
      ghost var before := states;
      states := states[removed[i].id := Removed];
      forall id
        ensures StateAt(states, id) == StateFor(id, previousById, nodes, removed[..i + 1])
      {
        assert StateAt(before, id) == StateFor(id, previousById, nodes, removed[..i]);
      }
    }
    assert removed[..|removed|] == removed;
  }

  // The third loop: old edges that can still be drawn.
  method MergeEdges(current: seq<Edge>, previous: seq<Edge>, visible: set<string>) returns (edges: seq<Edge>)
    ensures edges == current + Filter(previous, Drawable(Keys(current), visible))
  {
    edges := current;
    var keys := Keys(current);
    for i := 0 to |previous|
      invariant edges == current + Filter(previous[..i], Drawable(keys, visible))
    {
      var e := previous[i];
      assert previous[..i + 1] == previous[..i] + [e];
      FilterAppend(previous[..i], e, Drawable(keys, visible));
      if Key(e) !in keys && e.src in visible && e.dst in visible {
        edges := edges + [e];
      }
    }
    assert previous[..|previous|] == previous;
  }

  ghost predicate StatesCorrect(states: map<string, NodeState>, previous: Graph, current: Graph) {
    StatesOf(states, ById(previous.nodes), current.nodes, RemovedNodes(previous, current))
  }

  // deriveHistoryGraphTransition
  method DeriveHistoryGraphTransition(previous: Graph, current: Graph) returns (t: Transition)
    ensures t.display.nodes == current.nodes + RemovedNodes(previous, current)
    ensures t.display.edges == current.edges + KeptOldEdges(previous, current)
    ensures StatesCorrect(t.states, previous, current)
  {
    var currentById, previousById := ById(current.nodes), ById(previous.nodes);
    var removed := Filter(previous.nodes, NotIn(currentById.Keys));
    var states := StateNodes(previousById, current.nodes);
    states := StateRemoved(states, previousById, current.nodes, removed);
    var visible := set n | n in current.nodes + removed :: n.id;
    var edges := MergeEdges(current.edges, previous.edges, visible);
    t := Transition(Graph(current.nodes + removed, edges), states);
  }

  // ----- what the transition shows -----

  lemma Visible(previous: Graph, current: Graph)
    ensures VisibleIds(previous, current) == Ids(current.nodes) + Ids(previous.nodes)
    ensures Ids(RemovedNodes(previous, current)) == Ids(previous.nodes) - Ids(current.nodes)
  {
  }

  // The displayed nodes: all current ones, and the previous ones whose id no current one has.
  lemma DisplayedNodesExactly(previous: Graph, current: Graph, n: Node)
    ensures n in current.nodes + RemovedNodes(previous, current) <==>
              || n in current.nodes
              || (n in previous.nodes && forall m :: m in current.nodes ==> m.id != n.id)
  {
  }

  // A NUL-free key tells both ends and the kind.
  lemma KeyTellsEdgesApart(e: Edge, f: Edge)
    requires '\0' !in e.src && '\0' !in f.src && '\0' !in e.dst && '\0' !in f.dst
    ensures Key(e) == Key(f) <==> e.src == f.src && e.dst == f.dst && e.kind == f.kind
  {
    if Key(e) == Key(f) {
      var left, right := Separators.Join('\0', e.dst, e.kind), Separators.Join('\0', f.dst, f.kind);
      assert Key(e) == Separators.Join('\0', e.src, left) && Key(f) == Separators.Join('\0', f.src, right);
      Separators.SplitsOnce('\0', e.src, left, f.src, right);
      Separators.SplitsOnce('\0', e.dst, e.kind, f.dst, f.kind);
    }
  }

  ghost predicate NulFreeEnds(edges: seq<Edge>) {
    forall e :: e in edges ==> '\0' !in e.src && '\0' !in e.dst
  }

  ghost predicate HasNode(g: Graph, id: string) {
    exists n :: n in g.nodes && n.id == id
  }

  // The displayed edges: all current ones, and the previous ones that no current one repeats and
  // whose ends are nodes of either graph.
  lemma DisplayedEdgesExactly(previous: Graph, current: Graph, e: Edge)
    requires NulFreeEnds(previous.edges) && NulFreeEnds(current.edges)
    ensures e in current.edges + KeptOldEdges(previous, current) <==>
              || e in current.edges
              || (&& e in previous.edges
                  && (HasNode(previous, e.src) || HasNode(current, e.src))
                  && (HasNode(previous, e.dst) || HasNode(current, e.dst))
                  && !exists f :: f in current.edges && f.src == e.src && f.dst == e.dst && f.kind == e.kind)
  {
    Visible(previous, current);
    assert forall id :: id in Ids(current.nodes) <==> HasNode(current, id);
    assert forall id :: id in Ids(previous.nodes) <==> HasNode(previous, id);
    if e in previous.edges {
      forall f | f in current.edges
        ensures Key(e) == Key(f) <==> e.src == f.src && e.dst == f.dst && e.kind == f.kind
      {
        KeyTellsEdgesApart(e, f);
      }
    }
  }

  // The states in full: by id, who is in which graph, and for the common ones whether the body
  // changed.
  lemma StatesMean(previous: Graph, current: Graph, states: map<string, NodeState>)
    requires StatesCorrect(states, previous, current)
    ensures forall id :: StateAt(states, id) == Some(Added) <==> id in Ids(current.nodes) - Ids(previous.nodes)
    ensures forall id :: StateAt(states, id) == Some(Removed) <==> id in Ids(previous.nodes) - Ids(current.nodes)
    ensures UniqueIds(previous) ==>
              forall id :: StateAt(states, id) == Some(Changed) <==>
                exists n, m :: n in current.nodes && m in previous.nodes && n.id == id == m.id && n.body != m.body
  {
    Visible(previous, current);
    forall id
      ensures StateAt(states, id) == Some(Added) <==> id in Ids(current.nodes) - Ids(previous.nodes)
      ensures StateAt(states, id) == Some(Removed) <==> id in Ids(previous.nodes) - Ids(current.nodes)
    {
      assert StateAt(states, id) == StateFor(id, ById(previous.nodes), current.nodes, RemovedNodes(previous, current));
    }
    if UniqueIds(previous) {
      forall id
        ensures StateAt(states, id) == Some(Changed) <==>
          exists n, m :: n in current.nodes && m in previous.nodes && n.id == id == m.id && n.body != m.body
      {
        ChangedMeans(previous, current, states, id);
      }
    }
  }

  lemma ChangedMeans(previous: Graph, current: Graph, states: map<string, NodeState>, id: string)
    requires StatesCorrect(states, previous, current) && UniqueIds(previous)
    ensures StateAt(states, id) == Some(Changed) <==>
              exists n, m :: n in current.nodes && m in previous.nodes && n.id == id == m.id && n.body != m.body
  {
    var before := ById(previous.nodes);
    assert StateAt(states, id) == StateFor(id, before, current.nodes, RemovedNodes(previous, current));
    if HasNewVersion(current.nodes, before, id) {
      var n :| n in current.nodes && n.id == id && Differs(before, n);
      assert before[id] in previous.nodes;
    }
    if n, m :| n in current.nodes && m in previous.nodes && n.id == id == m.id && n.body != m.body {
      ByIdFinds(previous, m);
      assert Differs(before, n);
    }
  }

  function Not(states: map<string, NodeState>, state: NodeState): Node -> bool {
    (n: Node) => StateAt(states, n.id) != Some(state)
  }

  // Lossless: the current nodes, in order, are the displayed ones not marked removed.
  lemma CurrentNodesAreRecoverable(previous: Graph, current: Graph, states: map<string, NodeState>)
    requires StatesCorrect(states, previous, current)
    ensures Filter(current.nodes + RemovedNodes(previous, current), Not(states, Removed)) == current.nodes
  {
    Visible(previous, current);
    StatesMean(previous, current, states);
    var removed := RemovedNodes(previous, current);
    FilterConcat(current.nodes, removed, Not(states, Removed));
    FilterAll(current.nodes, Not(states, Removed));
    forall n | n in removed ensures !Not(states, Removed)(n) {
      assert n.id in Ids(removed);
    }
    FilterNone(removed, Not(states, Removed));
  }

  // The previous ids are those of the displayed nodes not marked added.
  lemma PreviousIdsAreRecoverable(previous: Graph, current: Graph, states: map<string, NodeState>)
    requires StatesCorrect(states, previous, current)
    ensures Ids(Filter(current.nodes + RemovedNodes(previous, current), Not(states, Added))) == Ids(previous.nodes)
  {
    Visible(previous, current);
    StatesMean(previous, current, states);
    var display := current.nodes + RemovedNodes(previous, current);
    var before := Filter(display, Not(states, Added));
    forall id | id in Ids(previous.nodes)
      ensures id in Ids(before)
    {
      assert id in VisibleIds(previous, current);
      var n :| n in display && n.id == id;
      assert n in before;
    }
    forall n | n in before
      ensures n.id in Ids(previous.nodes)
    {
      assert n.id in VisibleIds(previous, current);
    }
  }

  lemma DisplayedIdsAreDistinct(previous: Graph, current: Graph)
    requires UniqueIds(previous) && UniqueIds(current)
    ensures DistinctBy(current.nodes + RemovedNodes(previous, current), IdOf())
  {
    var removed := RemovedNodes(previous, current);
    var display := current.nodes + removed;
    FilterKeepsDistinct(previous.nodes, NotIn(Ids(current.nodes)), IdOf());
    forall i, j | 0 <= i < j < |display|
      ensures IdOf()(display[i]) != IdOf()(display[j])
    {
      if i < |current.nodes| <= j {
        assert display[j] in removed && display[i] in current.nodes;
      }
    }
  }

  ghost predicate ClosedEdges(edges: seq<Edge>, ids: set<string>) {
    forall e :: e in edges ==> e.src in ids && e.dst in ids
  }

  // The display is closed exactly when every current edge ends in a displayed node.
  lemma DisplayIsClosedExactly(previous: Graph, current: Graph)
    ensures var visible := VisibleIds(previous, current);
      ClosedEdges(current.edges + KeptOldEdges(previous, current), visible) <==> ClosedEdges(current.edges, visible)
  {
  }

  // The keys of the old edges both of whose ends are displayed.
  ghost function DrawnKeys(edges: seq<Edge>, visible: set<string>): set<string> {
    set e | e in edges && e.src in visible && e.dst in visible :: Key(e)
  }

  // The displayed keys: all current ones and all drawable previous ones.
  lemma DisplayedKeys(previous: Graph, current: Graph)
    ensures Keys(current.edges + KeptOldEdges(previous, current))
         == Keys(current.edges) + DrawnKeys(previous.edges, VisibleIds(previous, current))
  {
  }

  // Every previous edge between previous nodes survives, by key.
  lemma OldEdgesSurvive(previous: Graph, current: Graph, e: Edge)
    requires e in previous.edges && e.src in Ids(previous.nodes) && e.dst in Ids(previous.nodes)
    ensures Key(e) in Keys(current.edges + KeptOldEdges(previous, current))
  {
  }

  // Swapping the graphs shows the same node ids and exchanges added and removed; with unique ids
  // it also keeps what is marked changed.
  lemma SwapExchangesStates(a: Graph, b: Graph, forward: map<string, NodeState>, backward: map<string, NodeState>)
    requires StatesCorrect(forward, a, b) && StatesCorrect(backward, b, a)
    ensures VisibleIds(a, b) == VisibleIds(b, a)
    ensures forall id :: StateAt(forward, id) == Some(Added) <==> StateAt(backward, id) == Some(Removed)
    ensures forall id :: StateAt(forward, id) == Some(Removed) <==> StateAt(backward, id) == Some(Added)
    ensures UniqueIds(a) && UniqueIds(b) ==>
              forall id :: StateAt(forward, id) == Some(Changed) <==> StateAt(backward, id) == Some(Changed)
  {
    Visible(a, b);
    Visible(b, a);
    StatesMean(a, b, forward);
    StatesMean(b, a, backward);
  }

  // Swapping keeps the edge keys exactly when each graph's undrawable edges are keyed like an edge
  // of the other.
  lemma SwapKeepsEdgesExactly(a: Graph, b: Graph)
    ensures var visible := VisibleIds(a, b);
      Keys(b.edges + KeptOldEdges(a, b)) == Keys(a.edges + KeptOldEdges(b, a)) <==>
        && Keys(b.edges) - DrawnKeys(b.edges, visible) <= Keys(a.edges)
        && Keys(a.edges) - DrawnKeys(a.edges, visible) <= Keys(b.edges)
  {
    Visible(a, b);
    Visible(b, a);
    var visible := VisibleIds(a, b);
    assert VisibleIds(b, a) == visible;
    DisplayedKeys(a, b);
    DisplayedKeys(b, a);
    DrawnAreKeys(a.edges, visible);
    DrawnAreKeys(b.edges, visible);
    Exchange(Keys(a.edges), DrawnKeys(a.edges, visible), Keys(b.edges), DrawnKeys(b.edges, visible));
  }

  // Graphs without dangling edges have no undrawable ones.
  lemma SwapKeepsEdgesOfClosedGraphs(a: Graph, b: Graph)
    requires ClosedEdges(a.edges, Ids(a.nodes)) && ClosedEdges(b.edges, Ids(b.nodes))
    ensures Keys(b.edges + KeptOldEdges(a, b)) == Keys(a.edges + KeptOldEdges(b, a))
  {
    Visible(a, b);
    AllDrawn(a.edges, Ids(a.nodes), VisibleIds(a, b));
    AllDrawn(b.edges, Ids(b.nodes), VisibleIds(a, b));
    SwapKeepsEdgesExactly(a, b);
  }

  // One dangling edge is enough: forward it is displayed and leaves the display open, backward it
  // is lost.
  lemma DanglingEdgeIsLost(e: Edge)
    ensures var a, b := Graph([], []), Graph([], [e]);
      && Keys(b.edges + KeptOldEdges(a, b)) != Keys(a.edges + KeptOldEdges(b, a))
      && !ClosedEdges(b.edges + KeptOldEdges(a, b), VisibleIds(a, b))
  {
    var a, b := Graph([], []), Graph([], [e]);
    SwapKeepsEdgesExactly(a, b);
    DisplayIsClosedExactly(a, b);
    assert e in b.edges && Key(e) in Keys(b.edges);
    assert VisibleIds(a, b) == {};
    assert Key(e) in Keys(b.edges) - DrawnKeys(b.edges, VisibleIds(a, b));
    assert Key(e) !in Keys(a.edges);
  }

  lemma DrawnAreKeys(edges: seq<Edge>, visible: set<string>)
    ensures DrawnKeys(edges, visible) <= Keys(edges)
  {
  }

  lemma AllDrawn(edges: seq<Edge>, ids: set<string>, visible: set<string>)
    requires ClosedEdges(edges, ids) && ids <= visible
    ensures DrawnKeys(edges, visible) == Keys(edges)
  {
  }

  lemma Exchange(a: set<string>, drawnA: set<string>, b: set<string>, drawnB: set<string>)
    requires drawnA <= a && drawnB <= b
    ensures b + drawnA == a + drawnB <==> b - drawnB <= a && a - drawnA <= b
  {
  }
}
