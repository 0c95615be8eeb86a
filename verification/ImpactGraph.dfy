/**
 * The two views built from collected symbols: the impact graph, a star around a centre, and the
 * list of query hits.
 */
module ImpactGraph {
  import opened Options
  import opened SymbolReader
  import opened DeepGraph
  import opened DeepGraphOutput
  import opened Sequences
  import Reachability
  import Separators

  datatype Node = Node(id: string, kind: string, caption: string, path: Option<string>)

  datatype Edge = Edge(src: string, dst: string, depth: Option<nat>)

  datatype Graph = Graph(nodes: seq<Node>, edges: seq<Edge>, truncated: bool)

  datatype Hit = Hit(id: string, symbol: Symbolish)

  function GraphId(prefix: string, name: string): string {
    Separators.Join(':', prefix, name)
  }

  function SymbolId(s: Symbolish): string {
    GraphId(s.kind, s.name)
  }

  function NodeOf(s: Symbolish): Node {
    Node(SymbolId(s), s.kind, s.name, s.path)
  }

  function CenterNode(center: Symbolish): Node {
    Node(GraphId("impact", center.name), center.kind, center.name, center.path)
  }

  // The first non-null of several fields, else the last resort.
  function FirstField(heap: Heap, raw: Value, keys: seq<string>): Value {
    if keys == [] then raw else
      var v := Field(heap, raw, keys[0]);
      if v != Null then v else FirstField(heap, raw, keys[1..])
  }

  function Center(heap: Heap, raw: Value): Symbolish {
    var symbol := SymbolFromValue(heap, Field(heap, raw, "symbol"), None);
    var target := SymbolFromValue(heap, Field(heap, raw, "target"), None);
    var origin := SymbolFromValue(heap, Field(heap, raw, "source"), None);
    if symbol.Some? then symbol.value else if target.Some? then target.value
    else if origin.Some? then origin.value
    else Symbolish("target", "symbol", None, None, None, None)
  }

  function Risk(heap: Heap, raw: Value): Option<string> {
    var summary := Field(heap, raw, "summary");
    ReadString(heap, if summary.Ref? then summary else raw, ["risk_level", "risk"])
  }

  // ----- the first symbol of each id -----

  // The kept symbols, those of an id seen before left out.
  ghost function Firsts(symbols: seq<Symbolish>, keep: Symbolish -> bool): seq<Symbolish> {
    FirstOfEach(Filter(symbols, keep), SymbolId)
  }

  ghost function KeptIds(symbols: seq<Symbolish>, keep: Symbolish -> bool): set<string> {
    Image(Filter(symbols, keep), SymbolId)
  }

  // One per id of the kept symbols, each kept itself.
  lemma FirstsMean(symbols: seq<Symbolish>, keep: Symbolish -> bool)
    ensures var firsts := Firsts(symbols, keep);
      && DistinctBy(firsts, SymbolId)
      && (forall s :: s in firsts ==> s in symbols && keep(s))
      && Image(firsts, SymbolId) == KeptIds(symbols, keep)
  {
    FirstOfEachMeans(Filter(symbols, keep), SymbolId);
  }

  // What one more symbol adds.
  lemma FirstsStep(symbols: seq<Symbolish>, keep: Symbolish -> bool, n: nat)
    requires n < |symbols|
    ensures var s := symbols[n];
            var firsts, ids := Firsts(symbols[..n], keep), KeptIds(symbols[..n], keep);
      && Firsts(symbols[..n + 1], keep)
           == firsts + (if keep(s) && SymbolId(s) !in ids then [s] else [])
      && KeptIds(symbols[..n + 1], keep) == ids + (if keep(s) then {SymbolId(s)} else {})
  {
    var s, kept := symbols[n], Filter(symbols[..n], keep);
    assert symbols[..n + 1] == symbols[..n] + [s];
    FilterAppend(symbols[..n], s, keep);
    assert Filter(symbols[..n + 1], keep) == if keep(s) then kept + [s] else kept;
    if keep(s) {
      FirstsOneMore(kept, s, SymbolId);
    }
  }

  lemma FirstFor(symbols: seq<Symbolish>, keep: Symbolish -> bool, s: Symbolish) returns (i: nat)
    requires s in symbols && keep(s)
    ensures i < |Firsts(symbols, keep)| && SymbolId(Firsts(symbols, keep)[i]) == SymbolId(s)
  {
    FirstsMean(symbols, keep);
    assert SymbolId(s) in KeptIds(symbols, keep);
    var t :| t in Firsts(symbols, keep) && SymbolId(t) == SymbolId(s);
    i :| 0 <= i < |Firsts(symbols, keep)| && Firsts(symbols, keep)[i] == t;
  }

  // ----- the star -----

  // A star: one edge from the first node to each other node, in order.
  ghost predicate Star(nodes: seq<Node>, edges: seq<Edge>) {
    && |nodes| == |edges| + 1
    && forall i :: 0 <= i < |edges| ==> edges[i].src == nodes[0].id && edges[i].dst == nodes[i + 1].id
  }

  // The symbols that become outer nodes: those not named like the centre.
  function Outer(center: Symbolish): Symbolish -> bool {
    (s: Symbolish) => s.name != center.name
  }

  ghost function StarNodes(center: Symbolish, affected: seq<Symbolish>): seq<Node>
  {
    var firsts := Firsts(affected, Outer(center));
    [CenterNode(center)] + seq(|firsts|, i requires 0 <= i < |firsts| => NodeOf(firsts[i]))
  }

  ghost function StarEdges(center: Symbolish, affected: seq<Symbolish>): seq<Edge>
  {
    var firsts := Firsts(affected, Outer(center));
    seq(|firsts|, i requires 0 <= i < |firsts| =>
      Edge(CenterNode(center).id, SymbolId(firsts[i]), firsts[i].depth))
  }

  method BuildStar(center: Symbolish, affected: seq<Symbolish>) returns (nodes: seq<Node>, edges: seq<Edge>)
    ensures Star(nodes, edges)
    ensures nodes == StarNodes(center, affected)
    ensures edges == StarEdges(center, affected)
  {
    nodes, edges := [CenterNode(center)], [];
    var seen := {};
    for n := 0 to |affected|
      invariant nodes == StarNodes(center, affected[..n])
      invariant edges == StarEdges(center, affected[..n])
      invariant seen == KeptIds(affected[..n], Outer(center))
    {
      var s := affected[n];
      var id := SymbolId(s);
      FirstsStep(affected, Outer(center), n);
      if s.name != center.name && id !in seen {
        seen := seen + {id};
        nodes := nodes + [NodeOf(s)];
        edges := edges + [Edge(CenterNode(center).id, id, s.depth)];
      }
    }
    assert affected[..|affected|] == affected;
  }

  ghost predicate AllIdsDistinct(nodes: seq<Node>) {
    forall i, j :: 0 <= i < j < |nodes| ==> nodes[i].id != nodes[j].id
  }

  // The symbol is not named like the centre and yet gets its id: the kind continues "impact" past
  // a colon, and the centre's name is what the kind has more and the symbol's name.
  ghost predicate CollidesWith(center: Symbolish, s: Symbolish) {
    exists more :: s.kind == Separators.Join(':', "impact", more) && center.name == Separators.Join(':', more, s.name)
  }

  lemma CollidesExactly(center: Symbolish, s: Symbolish)
    ensures CollidesWith(center, s) <==> s.name != center.name && SymbolId(s) == GraphId("impact", center.name)
  {
    Separators.JoinsAgreeExactly(':', "impact", center.name, s.kind, s.name);
    forall more: string
      ensures !Separators.Shifted(':', s.kind, s.name, "impact", center.name, more)
    {
      if Separators.Shifted(':', s.kind, s.name, "impact", center.name, more) {
        Separators.ShiftHasSeparator(':', s.kind, s.name, "impact", center.name, more);
      }
    }
    if more :| s.kind == Separators.Join(':', "impact", more) && center.name == Separators.Join(':', more, s.name) {
      assert Separators.Shifted(':', "impact", center.name, s.kind, s.name, more);
      assert |center.name| > |s.name|;
    }
    if s.name != center.name && SymbolId(s) == GraphId("impact", center.name) {
      var more :| Separators.Shifted(':', "impact", center.name, s.kind, s.name, more);
    }
  }

  lemma OuterNode(center: Symbolish, affected: seq<Symbolish>, i: nat)
    requires 1 <= i < |StarNodes(center, affected)|
    ensures var firsts := Firsts(affected, Outer(center));
      && i - 1 < |firsts|
      && StarNodes(center, affected)[i].id == SymbolId(firsts[i - 1])
      && firsts[i - 1] in affected && firsts[i - 1].name != center.name
  {
    FirstsMean(affected, Outer(center));
    var firsts := Firsts(affected, Outer(center));
    assert firsts[i - 1] in firsts;
  }

  // The star on the fields of the symbols: which symbols become nodes, in their order, and what
  // each node and edge carries.
  lemma StarCarriesFields(center: Symbolish, affected: seq<Symbolish>) returns (at: seq<nat>)
    ensures var nodes, edges := StarNodes(center, affected), StarEdges(center, affected);
      && |nodes| == |at| + 1 && |edges| == |at|
      && nodes[0] == Node("impact" + ":" + center.name, center.kind, center.name, center.path)
      && (forall i, j :: 0 <= i < j < |at| ==> at[i] < at[j])
      && (forall i :: 0 <= i < |at| ==>
            && at[i] < |affected| && affected[at[i]].name != center.name
            && var s := affected[at[i]];
               && nodes[i + 1] == Node(s.kind + ":" + s.name, s.kind, s.name, s.path)
               && edges[i] == Edge("impact" + ":" + center.name, s.kind + ":" + s.name, s.depth))
  {
    var outer := Filter(affected, Outer(center));
    var inOuter := FirstsInOrder(outer, SymbolId);
    var inAll := FilterInOrder(affected, Outer(center));
    at := seq(|inOuter|, i requires 0 <= i < |inOuter| => inAll[inOuter[i]]);
    assert "impact" + [':'] + center.name == "impact" + ":" + center.name;
    forall i | 0 <= i < |at|
      ensures at[i] < |affected| && affected[at[i]] == Firsts(affected, Outer(center))[i]
      ensures affected[at[i]].name != center.name
    {
      assert outer[inOuter[i]] in outer;
    }
  }

  // The outer nodes are one per id of the outer symbols, so their ids are always distinct; all
  // ids are, exactly when no affected symbol's kind and name split the centre's name at a colon.
  lemma StarIdsExactly(center: Symbolish, affected: seq<Symbolish>)
    ensures var nodes := StarNodes(center, affected);
      && (forall i, j :: 1 <= i < j < |nodes| ==> nodes[i].id != nodes[j].id)
      && (AllIdsDistinct(nodes) <==> forall s :: s in affected ==> !CollidesWith(center, s))
  {
    var nodes := StarNodes(center, affected);
    forall i, j | 1 <= i < j < |nodes|
      ensures nodes[i].id != nodes[j].id
    {
      OuterNode(center, affected, i);
      OuterNode(center, affected, j);
      FirstsMean(affected, Outer(center));
    }
    if s :| s in affected && CollidesWith(center, s) {
      CollidesExactly(center, s);
      var i := FirstFor(affected, Outer(center), s);
      OuterNode(center, affected, i + 1);
      assert nodes[0].id == nodes[i + 1].id;
    } else {
      forall i | 1 <= i < |nodes|
        ensures nodes[i].id != nodes[0].id
      {
        OuterNode(center, affected, i);
        CollidesExactly(center, Firsts(affected, Outer(center))[i - 1]);
      }
    }
  }

  // Hence symbols whose kinds hold no colon always give distinct ids.
  lemma PlainKindsGiveDistinctIds(center: Symbolish, affected: seq<Symbolish>)
    requires forall s :: s in affected ==> ':' !in s.kind
    ensures AllIdsDistinct(StarNodes(center, affected))
  {
    StarIdsExactly(center, affected);
    forall s | s in affected
      ensures !CollidesWith(center, s)
    {
      if CollidesWith(center, s) {
        CollidingKindHasColon(center, s);
      }
    }
  }

  lemma CollidingKindHasColon(center: Symbolish, s: Symbolish)
    requires CollidesWith(center, s)
    ensures ':' in s.kind
  {
    assert s.kind[6] == ':';
  }

  ghost function Output(heap: Heap, start: Value): seq<Symbolish> {
    Collected(heap, start).out
  }

  const AFFECTED_FIELDS := ["affected", "upstream", "downstream", "by_depth"]

  // The ids of some symbols: those named from the start that satisfy keep.
  ghost predicate NamedId(heap: Heap, start: Value, keep: Symbolish -> bool, id: string) {
    exists t :: Named(heap, start, t) && keep(t) && SymbolId(t) == id
  }

  // The ids of the first symbols are those the reachable cells name; `keep` must not ask for the
  // depth.
  lemma FirstIdsAreNamed(heap: Heap, start: Value, keep: Symbolish -> bool, id: string)
    requires ValidHeap(heap) && InHeap(heap, start)
    requires forall s :: keep(s) == keep(s.(depth := None))
    ensures id in KeptIds(Output(heap, start), keep) <==> NamedId(heap, start, keep, id)
  {
    if id in KeptIds(Output(heap, start), keep) {
      var s :| s in Filter(Output(heap, start), keep) && SymbolId(s) == id;
      var t := s.(depth := None);
      OutputIsNamed(heap, start, t);
      assert Named(heap, start, t) && keep(t) && SymbolId(t) == id;
    }
    if t :| Named(heap, start, t) && keep(t) && SymbolId(t) == id {
      OutputIsNamed(heap, start, t);
      var s :| s in Output(heap, start) && s.(depth := None) == t;
      assert s in Filter(Output(heap, start), keep) && SymbolId(s) == id;
    }
  }

  // The symbols the graph is built from: what the traversal gives from the first of four fields.
  ghost function Affected(heap: Heap, raw: Value): seq<Symbolish> {
    Output(heap, FirstField(heap, raw, AFFECTED_FIELDS))
  }

  // graphFromImpactRaw
  method GraphFromImpactRaw(heap: Heap, raw: Value) returns (graph: Graph)
    requires ValidHeap(heap) && InHeap(heap, raw)
    ensures Star(graph.nodes, graph.edges)
    ensures graph.nodes == StarNodes(Center(heap, raw), Affected(heap, raw))
    ensures graph.edges == StarEdges(Center(heap, raw), Affected(heap, raw))
    ensures StartsAt(heap, raw, ["affected", "upstream", "downstream", "by_depth"],
                     FirstField(heap, raw, AFFECTED_FIELDS))
    ensures graph.truncated <==> |graph.nodes| >= 120 || Risk(heap, raw).Some?
  {
    var center := Center(heap, raw);
    FirstFieldInHeap(heap, raw, AFFECTED_FIELDS);
    FirstFieldMeans(heap, raw, AFFECTED_FIELDS);
    var symbols := CollectSymbolish(heap, FirstField(heap, raw, AFFECTED_FIELDS));
    var nodes, edges := BuildStar(center, symbols);
    graph := Graph(nodes, edges, |nodes| >= 120 || Risk(heap, raw).Some?);
  }

  // The graph in terms of the raw answer: its outer ids are those of the symbols that reachable
  // cells name and that are not named like the centre, each once; and all ids are distinct exactly
  // when no named symbol splits the centre's name.
  lemma ImpactGraphMeans(heap: Heap, center: Symbolish, start: Value)
    requires ValidHeap(heap) && InHeap(heap, start)
    ensures var nodes := StarNodes(center, Output(heap, start));
      && (forall i, j :: 1 <= i < j < |nodes| ==> nodes[i].id != nodes[j].id)
      && (forall id :: (exists i :: 1 <= i < |nodes| && nodes[i].id == id) <==> NamedId(heap, start, Outer(center), id))
      && (AllIdsDistinct(nodes) <==> forall t :: Named(heap, start, t) ==> !CollidesWith(center, t))
  {
    StarIdsExactly(center, Output(heap, start));
    forall id
      ensures (exists i :: 1 <= i < |StarNodes(center, Output(heap, start))|
                 && StarNodes(center, Output(heap, start))[i].id == id)
              <==> NamedId(heap, start, Outer(center), id)
    {
      OuterIds(center, Output(heap, start), id);
      FirstIdsAreNamed(heap, start, Outer(center), id);
    }
    forall t | Named(heap, start, t) && CollidesWith(center, t)
      ensures exists s :: s in Output(heap, start) && CollidesWith(center, s)
    {
      OutputIsNamed(heap, start, t);
      var s :| s in Output(heap, start) && s.(depth := None) == t;
      assert CollidesWith(center, s);
    }
    forall s | s in Output(heap, start) && CollidesWith(center, s)
      ensures exists t :: Named(heap, start, t) && CollidesWith(center, t)
    {
      OutputIsNamed(heap, start, s.(depth := None));
      assert CollidesWith(center, s.(depth := None));
    }
  }

  // ----- where the centre and the symbols are read -----

  // The field holds something other than null.
  ghost predicate Present(heap: Heap, raw: Value, key: string, v: Value) {
    v != Null && HasField(heap, raw, key, v)
  }

  // The traversal starts from the first of the fields that is present, else from the whole answer.
  ghost predicate StartsAt(heap: Heap, raw: Value, keys: seq<string>, v: Value) {
    || (exists i ::
          && 0 <= i < |keys| && Present(heap, raw, keys[i], v)
          && forall j, w :: 0 <= j < i ==> !Present(heap, raw, keys[j], w))
    || (v == raw && forall j, w :: 0 <= j < |keys| ==> !Present(heap, raw, keys[j], w))
  }

  lemma {:induction false} FirstFieldMeans(heap: Heap, raw: Value, keys: seq<string>)
    ensures StartsAt(heap, raw, keys, FirstField(heap, raw, keys))
  {
    if keys != [] {
      forall w
        ensures Present(heap, raw, keys[0], w) <==> w != Null && Field(heap, raw, keys[0]) == w
      {
        if w != Null {
          FieldMeans(heap, raw, keys[0], w);
        }
      }
      if Field(heap, raw, keys[0]) == Null {
        FirstFieldMeans(heap, raw, keys[1..]);
        assert forall j :: 0 < j < |keys| ==> keys[j] == keys[1..][j - 1];
        var v := FirstField(heap, raw, keys);
        if i :| && 0 <= i < |keys[1..]| && Present(heap, raw, keys[1..][i], v)
                && forall j, w :: 0 <= j < i ==> !Present(heap, raw, keys[1..][j], w) {
          assert keys[i + 1] == keys[1..][i];
        }
      }
    }
  }

  // A symbol read from what the field holds.
  ghost predicate ReadsFrom(heap: Heap, raw: Value, key: string, s: Symbolish) {
    exists v :: Present(heap, raw, key, v) && ReadsAs(heap, v, s)
  }

  lemma FieldSymbol(heap: Heap, raw: Value, key: string, s: Symbolish)
    ensures SymbolFromValue(heap, Field(heap, raw, key), None) == Some(s) <==>
              s.depth == None && ReadsFrom(heap, raw, key, s)
  {
    var v := Field(heap, raw, key);
    SymbolExactly(heap, v, None, s);
    if v != Null {
      FieldMeans(heap, raw, key, v);
    }
    if w :| Present(heap, raw, key, w) && ReadsAs(heap, w, s) {
      FieldMeans(heap, raw, key, w);
    }
  }

  lemma FieldReads(heap: Heap, raw: Value, key: string)
    ensures var r := SymbolFromValue(heap, Field(heap, raw, key), None);
      && (r.Some? <==> exists s :: ReadsFrom(heap, raw, key, s))
      && (r.Some? ==> r.value.depth == None && ReadsFrom(heap, raw, key, r.value))
  {
    var r := SymbolFromValue(heap, Field(heap, raw, key), None);
    if r.Some? {
      FieldSymbol(heap, raw, key, r.value);
    }
    if s :| ReadsFrom(heap, raw, key, s) {
      var v :| Present(heap, raw, key, v) && ReadsAs(heap, v, s);
      ReadingIgnoresDepth(heap, v, s);
      FieldSymbol(heap, raw, key, s.(depth := None));
    }
  }

  // The centre is read from `symbol`, else `target`, else `source`, else made up.
  lemma CenterMeans(heap: Heap, raw: Value)
    ensures var c := Center(heap, raw);
      && c.depth == None
      && if exists s :: ReadsFrom(heap, raw, "symbol", s) then ReadsFrom(heap, raw, "symbol", c)
         else if exists s :: ReadsFrom(heap, raw, "target", s) then ReadsFrom(heap, raw, "target", c)
         else if exists s :: ReadsFrom(heap, raw, "source", s) then ReadsFrom(heap, raw, "source", c)
         else c == Symbolish("target", "symbol", None, None, None, None)
  {
    FieldReads(heap, raw, "symbol");
    FieldReads(heap, raw, "target");
    FieldReads(heap, raw, "source");
  }

  // The risk level is read from the summary if that is an object, else from the whole answer.
  lemma RiskMeans(heap: Heap, raw: Value)
    ensures Risk(heap, raw).Some? <==>
              if exists a :: HasField(heap, raw, "summary", Ref(a))
              then exists a, t ::
                     HasField(heap, raw, "summary", Ref(a)) && FirstSaid(heap, Ref(a), ["risk_level", "risk"], t)
              else exists t :: FirstSaid(heap, raw, ["risk_level", "risk"], t)
  {
    var summary := Field(heap, raw, "summary");
    forall a: Addr
      ensures HasField(heap, raw, "summary", Ref(a)) <==> summary == Ref(a)
    {
      FieldMeans(heap, raw, "summary", Ref(a));
    }
    var holder := if summary.Ref? then summary else raw;
    forall t
      ensures ReadString(heap, holder, ["risk_level", "risk"]) == Some(t)
          <==> FirstSaid(heap, holder, ["risk_level", "risk"], t)
    {
      ReadStringMeans(heap, holder, ["risk_level", "risk"], t);
    }
    assert summary.Ref? ==> HasField(heap, raw, "summary", Ref(summary.addr));
    if Risk(heap, raw).Some? {
      assert FirstSaid(heap, holder, ["risk_level", "risk"], Risk(heap, raw).value);
    }
  }

  // Every outer node carries the kind, name and path that some reachable cell's fields give.
  lemma StarIsRead(heap: Heap, center: Symbolish, start: Value)
    requires ValidHeap(heap) && InHeap(heap, start)
    ensures forall n :: n in StarNodes(center, Output(heap, start))[1..] ==>
              exists t :: Named(heap, start, t) && n == Node(t.kind + ":" + t.name, t.kind, t.name, t.path)
  {
    var at := StarCarriesFields(center, Output(heap, start));
    var nodes := StarNodes(center, Output(heap, start));
    forall n | n in nodes[1..]
      ensures exists t :: Named(heap, start, t) && n == Node(t.kind + ":" + t.name, t.kind, t.name, t.path)
    {
      var i :| 0 <= i < |nodes[1..]| && nodes[1..][i] == n;
      var s := Output(heap, start)[at[i]];
      OutputIsNamed(heap, start, s.(depth := None));
      assert n == nodes[i + 1] && Named(heap, start, s.(depth := None));
    }
  }

  // The raw answer {symbol: {name: "a:b"}, affected: [{name: "b", kind: "impact:a"}]}.
  const CENTRE_FIELDS := [("name", Text("a:b"))]
  const SYMBOL_FIELDS := [("name", Text("b")), ("kind", Text("impact:a"))]
  const ANSWER_FIELDS := [("symbol", Ref(1)), ("affected", Ref(2))]
  const COLLIDING_ANSWER: Heap := map[
    0 := Obj(ANSWER_FIELDS), 1 := Obj(CENTRE_FIELDS), 2 := Arr([Ref(3)]), 3 := Obj(SYMBOL_FIELDS)]
  const COLLIDING_SYMBOL := Symbolish("b", "impact:a", None, None, None, None)

  lemma CollidingAnswerIsValid()
    ensures ValidHeap(COLLIDING_ANSWER) && InHeap(COLLIDING_ANSWER, Ref(0))
  {
  }

  lemma CollidingCentre()
    ensures Center(COLLIDING_ANSWER, Ref(0)).name == "a:b"
    ensures FirstField(COLLIDING_ANSWER, Ref(0), AFFECTED_FIELDS) == Ref(2)
  {
    assert ANSWER_FIELDS[1..] == [("affected", Ref(2))];
    assert Lookup(ANSWER_FIELDS, "symbol") == Ref(1) && Lookup(ANSWER_FIELDS, "affected") == Ref(2);
    assert Lookup(CENTRE_FIELDS, "name") == Text("a:b");
  }

  lemma {:induction false} AbsentKeysReadNothing(heap: Heap, v: Value, keys: seq<string>)
    requires forall i :: 0 <= i < |keys| ==> Field(heap, v, keys[i]) == Null
    ensures ReadString(heap, v, keys) == None && ReadNumber(heap, v, keys) == None
  {
    if keys != [] {
      AbsentKeysReadNothing(heap, v, keys[1..]);
    }
  }

  lemma CollidingSymbol()
    ensures SymbolFromValue(COLLIDING_ANSWER, Ref(3), None) == Some(COLLIDING_SYMBOL)
  {
    assert SYMBOL_FIELDS[1..] == [("kind", Text("impact:a"))] && SYMBOL_FIELDS[1..][1..] == [];
    forall key: string
      ensures Field(COLLIDING_ANSWER, Ref(3), key) ==
                if key == "name" then Text("b") else if key == "kind" then Text("impact:a") else Null
    {
      assert Lookup(SYMBOL_FIELDS[1..], key) == if key == "kind" then Text("impact:a") else Null;
    }
    AbsentKeysReadNothing(COLLIDING_ANSWER, Ref(3), ["filePath", "file_path", "path"]);
    AbsentKeysReadNothing(COLLIDING_ANSWER, Ref(3), ["score", "relevance", "rrf_score"]);
    AbsentKeysReadNothing(COLLIDING_ANSWER, Ref(3), ["snippet", "summary", "description"]);
  }

  lemma CollidingSymbolIsNamed()
    ensures Named(COLLIDING_ANSWER, Ref(2), COLLIDING_SYMBOL)
  {
    CollidingSymbol();
    Reachability.ReachesItself(Leads(COLLIDING_ANSWER), 2);
    assert Visits(COLLIDING_ANSWER, Ref(2), 2);
    SymbolExactly(COLLIDING_ANSWER, Ref(3), None, COLLIDING_SYMBOL);
    assert Offered(COLLIDING_ANSWER[2], 0) && Slot(COLLIDING_ANSWER[2], 0) == Ref(3);
  }

  // The restriction is needed: on this answer, every graph has two nodes with the id impact:a:b.
  lemma KindWithColonCollides()
    ensures ValidHeap(COLLIDING_ANSWER) && InHeap(COLLIDING_ANSWER, Ref(0))
    ensures !AllIdsDistinct(StarNodes(Center(COLLIDING_ANSWER, Ref(0)), Affected(COLLIDING_ANSWER, Ref(0))))
  {
    CollidingAnswerIsValid();
    CollidingCentre();
    CollidingSymbolIsNamed();
    CollidesWithSymbol(Center(COLLIDING_ANSWER, Ref(0)));
    NamedCollision(COLLIDING_ANSWER, Center(COLLIDING_ANSWER, Ref(0)), Ref(2), COLLIDING_SYMBOL);
  }

  lemma CollidesWithSymbol(center: Symbolish)
    requires center.name == "a:b"
    ensures CollidesWith(center, COLLIDING_SYMBOL)
  {
    assert COLLIDING_SYMBOL.kind == Separators.Join(':', "impact", "a");
    assert center.name == Separators.Join(':', "a", COLLIDING_SYMBOL.name);
  }

  lemma NamedCollision(heap: Heap, center: Symbolish, start: Value, t: Symbolish)
    requires ValidHeap(heap) && InHeap(heap, start) && Named(heap, start, t) && CollidesWith(center, t)
    ensures !AllIdsDistinct(StarNodes(center, Output(heap, start)))
  {
    ImpactGraphMeans(heap, center, start);
  }

  lemma OuterIds(center: Symbolish, affected: seq<Symbolish>, id: string)
    ensures var nodes := StarNodes(center, affected);
            (exists i :: 1 <= i < |nodes| && nodes[i].id == id) <==> id in KeptIds(affected, Outer(center))
  {
    FirstsMean(affected, Outer(center));
    var nodes := StarNodes(center, affected);
    if i :| 1 <= i < |nodes| && nodes[i].id == id {
      OuterNode(center, affected, i);
      var s := Firsts(affected, Outer(center))[i - 1];
      assert s in Firsts(affected, Outer(center));
    }
    if id in KeptIds(affected, Outer(center)) {
      var s :| s in Filter(affected, Outer(center)) && SymbolId(s) == id;
      var i := FirstFor(affected, Outer(center), s);
      OuterNode(center, affected, i + 1);
    }
  }

  lemma {:induction false} LookupInHeap(heap: Heap, fields: seq<(string, Value)>, key: string)
    requires forall i :: 0 <= i < |fields| ==> InHeap(heap, fields[i].1)
    ensures InHeap(heap, Lookup(fields, key))
  {
    if fields != [] && fields[0].0 != key {
      LookupInHeap(heap, fields[1..], key);
    }
  }

  lemma {:induction false} FirstFieldInHeap(heap: Heap, raw: Value, keys: seq<string>)
    requires ValidHeap(heap) && InHeap(heap, raw)
    ensures InHeap(heap, FirstField(heap, raw, keys))
  {
    if keys != [] {
      if raw.Ref? && heap[raw.addr].Obj? {
        var cell := heap[raw.addr];
        forall i | 0 <= i < |cell.fields| ensures InHeap(heap, cell.fields[i].1) {
          assert InHeap(heap, Slot(cell, i));
        }
        LookupInHeap(heap, cell.fields, keys[0]);
      }
      FirstFieldInHeap(heap, raw, keys[1..]);
    }
  }

  // ----- the hits -----

  const MAX_HITS := 48

  function Any(): Symbolish -> bool {
    (s: Symbolish) => true
  }

  ghost function AsHits(symbols: seq<Symbolish>): seq<Hit> {
    seq(|symbols|, i requires 0 <= i < |symbols| => Hit(SymbolId(symbols[i]), symbols[i]))
  }

  lemma HitsStep(symbols: seq<Symbolish>, n: nat)
    requires n < |symbols|
    ensures KeptIds(symbols[..n + 1], Any()) == KeptIds(symbols[..n], Any()) + {SymbolId(symbols[n])}
    ensures SymbolId(symbols[n]) in KeptIds(symbols[..n], Any()) ==>
              Firsts(symbols[..n + 1], Any()) == Firsts(symbols[..n], Any())
    ensures SymbolId(symbols[n]) !in KeptIds(symbols[..n], Any()) ==>
              AsHits(Firsts(symbols[..n + 1], Any()))
              == AsHits(Firsts(symbols[..n], Any())) + [Hit(SymbolId(symbols[n]), symbols[n])]
  {
    FirstsStep(symbols, Any(), n);
  }

  function Cut(hits: seq<Hit>): seq<Hit> {
    Take(hits, MAX_HITS)
  }

  // The loop of hitsFromQueryRaw: the first symbol of each id, in order, cut to 48. HitsMean says
  // that the ids are distinct and that no id is missing unless the list is full.
  method HitsFromSymbols(symbols: seq<Symbolish>) returns (hits: seq<Hit>)
    ensures hits == Cut(AsHits(Firsts(symbols, Any())))
  {
    var all := [];
    var ids := {};
    for n := 0 to |symbols|
      invariant all == AsHits(Firsts(symbols[..n], Any()))
      invariant ids == KeptIds(symbols[..n], Any())
    {
      var id := SymbolId(symbols[n]);
      HitsStep(symbols, n);
      if id !in ids {
        ids := ids + {id};
        all := all + [Hit(id, symbols[n])];
      } else {
        assert ids + {id} == ids;
      }
    }
    assert symbols[..|symbols|] == symbols;
    hits := Cut(all);
  }

  const HIT_FIELDS := ["results", "hits", "matches", "items"]

  // hitsFromQueryRaw
  method HitsFromQueryRaw(heap: Heap, raw: Value) returns (hits: seq<Hit>)
    requires ValidHeap(heap) && InHeap(heap, raw)
    ensures hits == Cut(AsHits(Firsts(Output(heap, FirstField(heap, raw, HIT_FIELDS)), Any())))
    ensures StartsAt(heap, raw, ["results", "hits", "matches", "items"], FirstField(heap, raw, HIT_FIELDS))
  {
    FirstFieldInHeap(heap, raw, HIT_FIELDS);
    FirstFieldMeans(heap, raw, HIT_FIELDS);
    var symbols := CollectSymbolish(heap, FirstField(heap, raw, HIT_FIELDS));
    hits := HitsFromSymbols(symbols);
  }

  // The hits in terms of the raw answer: every hit is named by a reachable cell, and if the list
  // is not full every symbol so named has a hit with its id.
  lemma HitsAreNamed(heap: Heap, start: Value, id: string)
    requires ValidHeap(heap) && InHeap(heap, start)
    ensures var hits := Cut(AsHits(Firsts(Output(heap, start), Any())));
      && ((exists i :: 0 <= i < |hits| && hits[i].id == id) ==> NamedId(heap, start, Any(), id))
      && (|hits| < MAX_HITS && NamedId(heap, start, Any(), id) ==> exists i :: 0 <= i < |hits| && hits[i].id == id)
  {
    FirstIdsAreNamed(heap, start, Any(), id);
    FirstsMean(Output(heap, start), Any());
    var firsts := Firsts(Output(heap, start), Any());
    var hits := Cut(AsHits(firsts));
    if i :| 0 <= i < |hits| && hits[i].id == id {
      assert firsts[i] in firsts && SymbolId(firsts[i]) == id;
    }
    if |hits| < MAX_HITS && NamedId(heap, start, Any(), id) {
      var s :| s in firsts && SymbolId(s) == id;
      var k :| 0 <= k < |firsts| && firsts[k] == s;
      assert hits[k].id == id;
    }
  }

  // Every hit carries what some reachable cell's fields give.
  lemma HitsAreRead(heap: Heap, start: Value)
    requires ValidHeap(heap) && InHeap(heap, start)
    ensures forall hit :: hit in Cut(AsHits(Firsts(Output(heap, start), Any()))) ==>
              Named(heap, start, hit.symbol.(depth := None))
  {
    var at := HitsMean(Output(heap, start));
    var hits := Cut(AsHits(Firsts(Output(heap, start), Any())));
    forall hit | hit in hits
      ensures Named(heap, start, hit.symbol.(depth := None))
    {
      var i :| 0 <= i < |hits| && hits[i] == hit;
      assert hit.symbol in Output(heap, start);
      OutputIsNamed(heap, start, hit.symbol.(depth := None));
    }
  }

  lemma HitsMean(symbols: seq<Symbolish>) returns (at: seq<nat>)
    ensures var hits := Cut(AsHits(Firsts(symbols, Any())));
      && |hits| <= 48 && |at| == |hits|
      && (forall i, j :: 0 <= i < j < |hits| ==> hits[i].id != hits[j].id && at[i] < at[j])
      && (forall i :: 0 <= i < |hits| ==>
            && at[i] < |symbols| && hits[i].symbol == symbols[at[i]]
            && hits[i].id == hits[i].symbol.kind + ":" + hits[i].symbol.name
            && forall j :: 0 <= j < at[i] ==> SymbolId(symbols[j]) != hits[i].id)
      && (|hits| < 48 ==> forall s :: s in symbols ==> SymbolId(s) in set h | h in hits :: h.id)
  {
    FirstsMean(symbols, Any());
    FilterAll(symbols, Any());
    var firsts := Firsts(symbols, Any());
    var hits := Cut(AsHits(firsts));
    at := FirstsInOrder(symbols, SymbolId);
    at := at[..|hits|];
    assert forall i :: 0 <= i < |hits| ==> hits[i] == Hit(SymbolId(firsts[i]), firsts[i]);
    if |hits| < MAX_HITS {
      AllIdsHit(symbols);
    }
  }

  lemma AllIdsHit(symbols: seq<Symbolish>)
    ensures forall s :: s in symbols ==>
              SymbolId(s) in set h | h in AsHits(Firsts(symbols, Any())) :: h.id
  {
    var firsts := Firsts(symbols, Any());
    forall s | s in symbols
      ensures SymbolId(s) in set h | h in AsHits(firsts) :: h.id
    {
      var i := FirstFor(symbols, Any(), s);
      assert AsHits(firsts)[i].id == SymbolId(s);
    }
  }
}
