/**
 * The review-memory graph as the desktop side builds it, from which the focused graph is cut:
 * slugs as node ids, pushes that skip what is there already, and caps with a flag.
 */
module MemoryGraph {
  import opened Options
  import opened Sequences
  import FocusedGraph

  type Edge = FocusedGraph.Edge

  datatype Node = Node(id: string, kind: string, caption: string, file: Option<string>, detail: string)

  datatype Graph = Graph(nodes: seq<Node>, edges: seq<Edge>, truncated: bool)

  datatype Candidate = Candidate(id: string, files: seq<string>, detail: string, confidence: real)

  datatype Gate = Gate(id: string, candidates: seq<string>, detail: string)

  // A blank history section counts as none; of another one only the node's detail matters.
  datatype Review = Review(
    files: seq<string>,
    history: Option<string>,
    blast: bool,
    candidates: seq<Candidate>,
    gates: seq<Gate>)

  // ----- slugs -----

  predicate SlugChar(c: char) {
    'a' <= c <= 'z' || '0' <= c <= '9' || c == '-'
  }

  function Plain(c: char): (r: char)
    ensures SlugChar(r)
  {
    if 'A' <= c <= 'Z' then c - 'A' + 'a' else if SlugChar(c) then c else '-'
  }

  predicate PairAt(s: string, i: nat) {
    i + 1 < |s| && s[i] == '-' && s[i + 1] == '-'
  }

  predicate HasPair(s: string) {
    exists i :: 0 <= i < |s| && PairAt(s, i)
  }

  // replace("--", "-"), which goes on behind each pair it replaces.
  function ReplacePairs(s: string): (r: string)
    ensures s != "" ==> r != "" && r[0] == s[0]
    ensures |r| <= |s|
  {
    if s == "" then ""
    else if PairAt(s, 0) then "-" + ReplacePairs(s[2..])
    else [s[0]] + ReplacePairs(s[1..])
  }

  // Every run of dashes is one dash.
  function Collapsed(s: string): (r: string)
    ensures forall c :: c in r ==> c in s
    ensures s != "" ==> r != "" && r[0] == s[0] && r[|r| - 1] == s[|s| - 1]
    ensures !HasPair(r)
  {
    if s == "" then ""
    else if PairAt(s, 0) then Collapsed(s[1..])
    else
      var rest := Collapsed(s[1..]);
      assert forall i: nat :: PairAt([s[0]] + rest, i) ==> i > 0 && PairAt(rest, i - 1);
      [s[0]] + rest
  }

  lemma {:induction false} ReplacingCollapses(s: string)
    ensures Collapsed(ReplacePairs(s)) == Collapsed(s)
    decreases |s|
  {
    if s != "" {
      var rest := if PairAt(s, 0) then s[2..] else s[1..];
      ReplacingCollapses(rest);
      assert ReplacePairs(s)[1..] == ReplacePairs(rest);
      assert PairAt(s, 0) ==> s[1..][1..] == rest;
      assert PairAt(s, 0) ==> (PairAt(s[1..], 0) <==> PairAt(ReplacePairs(s), 0));
      assert !PairAt(s, 0) ==> !PairAt(ReplacePairs(s), 0);
    }
  }

  lemma {:induction false} ReplacingShortens(s: string)
    requires HasPair(s)
    ensures |ReplacePairs(s)| < |s|
    decreases |s|
  {
    if !PairAt(s, 0) {
      var i :| 0 <= i < |s| && PairAt(s, i);
      assert s[1..][i - 1] == s[i] && s[1..][i] == s[i + 1];
      assert PairAt(s[1..], i - 1);
      ReplacingShortens(s[1..]);
    }
  }

  lemma {:induction false} CollapsedIfNoPair(s: string)
    requires !HasPair(s)
    ensures Collapsed(s) == s
  {
    if s != "" {
      assert !PairAt(s, 0);
      assert forall i: nat :: PairAt(s[1..], i) ==> PairAt(s, i + 1);
      CollapsedIfNoPair(s[1..]);
    }
  }

  function TrimStart(s: string): string {
    if s != "" && s[0] == '-' then TrimStart(s[1..]) else s
  }

  function TrimEnd(s: string): string {
    if s != "" && s[|s| - 1] == '-' then TrimEnd(s[..|s| - 1]) else s
  }

  const MAX_SLUG := 90

  function Uncut(value: string): string {
    TrimEnd(TrimStart(Collapsed(Map(value, Plain))))
  }

  function Slug(value: string): string {
    Take(Uncut(value), MAX_SLUG)
  }

  function NodeId(kind: string, value: string): string {
    kind + "-" + if Slug(value) == "" then "unknown" else Slug(value)
  }

  // The slug of graph_node_id: replacing pairs until there is none collapses every run at once.
  method SlugOf(value: string) returns (slug: string)
    ensures slug == Slug(value)
  {
    slug := Map(value, Plain);
    while HasPair(slug)
      invariant Collapsed(slug) == Collapsed(Map(value, Plain))
      decreases |slug|
    {
      ReplacingCollapses(slug);
      ReplacingShortens(slug);
      slug := ReplacePairs(slug);
    }
    CollapsedIfNoPair(slug);
    slug := Take(TrimEnd(TrimStart(slug)), MAX_SLUG);
  }

  method GraphNodeId(kind: string, value: string) returns (id: string)
    ensures id == NodeId(kind, value)
  {
    var slug := SlugOf(value);
    id := kind + "-" + if slug == "" then "unknown" else slug;
  }

  // Trimming and cutting keep a stretch of the text.
  ghost predicate Within(part: string, s: string) {
    exists k :: 0 <= k <= |s| && part <= s[k..]
  }

  lemma {:induction false} TrimStartMeans(s: string)
    ensures exists k :: 0 <= k <= |s| && TrimStart(s) == s[k..]
    ensures TrimStart(s) != "" ==> TrimStart(s)[0] != '-'
  {
    if s != "" && s[0] == '-' {
      TrimStartMeans(s[1..]);
      var k :| 0 <= k <= |s[1..]| && TrimStart(s[1..]) == s[1..][k..];
      assert s[1..][k..] == s[k + 1..];
    } else {
      assert s == s[0..];
    }
  }

  lemma {:induction false} TrimEndMeans(s: string)
    ensures TrimEnd(s) <= s
  {
    if s != "" && s[|s| - 1] == '-' {
      TrimEndMeans(s[..|s| - 1]);
    }
  }

  lemma WithinMeans(part: string, s: string)
    requires Within(part, s)
    ensures forall c :: c in part ==> c in s
    ensures HasPair(part) ==> HasPair(s)
  {
    var k :| 0 <= k <= |s| && part <= s[k..];
    assert forall i :: 0 <= i < |part| ==> part[i] == s[k + i];
    if HasPair(part) {
      var i :| 0 <= i < |part| && PairAt(part, i);
      assert PairAt(s, k + i);
    }
  }

  // A slug is a text of lower-case letters, digits and single dashes, not led by a dash.
  lemma SlugMeans(value: string)
    ensures var slug := Slug(value);
      && |slug| <= 90
      && slug <= Uncut(value) && (|slug| < 90 ==> slug == Uncut(value))
      && (forall c :: c in slug ==> SlugChar(c))
      && !HasPair(slug)
      && (slug != "" ==> slug[0] != '-')
  {
    var collapsed, slug := Collapsed(Map(value, Plain)), Slug(value);
    TrimStartMeans(collapsed);
    TrimEndMeans(TrimStart(collapsed));
    assert Within(slug, collapsed);
    WithinMeans(slug, collapsed);
    forall c | c in Map(value, Plain) ensures SlugChar(c) {}
  }

  // The letters and digits of a text, in lower case.
  function Letters(s: string): string {
    if s == "" then ""
    else
      (if 'a' <= s[0] <= 'z' || '0' <= s[0] <= '9' then [s[0]]
       else if 'A' <= s[0] <= 'Z' then [(s[0] as int - 'A' as int + 'a' as int) as char]
       else "") + Letters(s[1..])
  }

  ghost predicate Alphanumeric(c: char) {
    'a' <= c <= 'z' || '0' <= c <= '9' || 'A' <= c <= 'Z'
  }

  // Beginning and ending with a letter or digit.
  ghost predicate Bounded(s: string) {
    s != "" && Alphanumeric(s[0]) && Alphanumeric(s[|s| - 1])
  }

  lemma PlainMeans(c: char)
    ensures Plain(c) == '-' <==> !Alphanumeric(c)
    ensures Letters([c]) == if Alphanumeric(c) then [Plain(c)] else ""
  {
    assert [c][1..] == "";
  }

  lemma UntrimmedMeans(s: string)
    requires Firm(s)
    ensures TrimEnd(TrimStart(s)) == s
  {
  }

  lemma BoundedIsCollapsed(s: string)
    requires Bounded(s)
    ensures Uncut(s) == Collapsed(Map(s, Plain))
  {
    PlainMeans(s[0]);
    PlainMeans(s[|s| - 1]);
    UntrimmedMeans(Collapsed(Map(s, Plain)));
  }

  // A word of letters and digits is its own slug, in lower case.
  lemma {:induction false} WordSlug(word: string)
    requires word != "" && forall i :: 0 <= i < |word| ==> Alphanumeric(word[i])
    ensures Uncut(word) == Letters(word)
  {
    BoundedIsCollapsed(word);
    PlainMeans(word[0]);
    var plain := Map(word, Plain);
    assert plain[0] != '-';
    if |word| == 1 {
      assert word == [word[0]] && plain[1..] == "";
    } else {
      WordSlug(word[1..]);
      BoundedIsCollapsed(word[1..]);
      assert plain[1..] == Map(word[1..], Plain);
      assert Letters(word) == Letters([word[0]]) + Letters(word[1..]);
    }
  }

  // Texts collapse apart where no run of dashes spans the border.
  lemma {:induction false} CollapsedApart(a: string, b: string)
    requires a != "" && b != "" ==> a[|a| - 1] != '-' || b[0] != '-'
    ensures Collapsed(a + b) == Collapsed(a) + Collapsed(b)
  {
    if a == "" {
      assert a + b == b;
    } else {
      assert (a + b)[1..] == a[1..] + b;
      assert PairAt(a + b, 0) <==> PairAt(a, 0);
      CollapsedApart(a[1..], b);
      if !PairAt(a, 0) {
        assert [a[0]] + (Collapsed(a[1..]) + Collapsed(b)) == ([a[0]] + Collapsed(a[1..])) + Collapsed(b);
      }
    }
  }

  ghost predicate Dashes(s: string) {
    forall i :: 0 <= i < |s| ==> s[i] == '-'
  }

  lemma {:induction false} DashesCollapse(dashes: string)
    requires Dashes(dashes)
    ensures Collapsed(dashes) == if dashes == "" then "" else "-"
  {
    if |dashes| > 1 {
      DashesCollapse(dashes[1..]);
    } else if dashes != "" {
      assert dashes == "-" && dashes[1..] == "";
    }
  }

  lemma DashesMeans(s: string)
    requires forall i :: 0 <= i < |s| ==> !Alphanumeric(s[i])
    ensures Dashes(Map(s, Plain))
  {
    forall i | 0 <= i < |s|
      ensures Map(s, Plain)[i] == '-'
    {
      PlainMeans(s[i]);
    }
  }

  // The plain form of a bounded text begins and ends with something else than a dash.
  ghost predicate Firm(s: string) {
    s != "" && s[0] != '-' && s[|s| - 1] != '-'
  }

  lemma BoundedIsFirm(s: string)
    requires Bounded(s)
    ensures Firm(Map(s, Plain))
  {
    PlainMeans(s[0]);
    PlainMeans(s[|s| - 1]);
  }

  lemma CollapsedParts(a: string, dashes: string, b: string)
    requires (a != "" ==> a[|a| - 1] != '-') && Dashes(dashes) && (b != "" ==> b[0] != '-')
    ensures Collapsed(a + (dashes + b)) == Collapsed(a) + ((if dashes == "" then "" else "-") + Collapsed(b))
  {
    DashesCollapse(dashes);
    CollapsedApart(dashes, b);
    if dashes == "" {
      assert dashes + b == b;
    }
    if dashes == "" && a != "" && b != "" {
      assert a[|a| - 1] != '-';
    }
    CollapsedApart(a, dashes + b);
  }

  lemma BoundedTogether(a: string, b: string)
    requires a != "" && b != "" && Alphanumeric(a[0]) && Alphanumeric(b[|b| - 1])
    ensures Bounded(a + b)
  {
  }

  // Anything between two stretches becomes one dash.
  lemma SlugAcross(a: string, between: string, b: string)
    requires Bounded(a) && Bounded(b)
    requires between != "" && forall i :: 0 <= i < |between| ==> !Alphanumeric(between[i])
    ensures Uncut(a + (between + b)) == Uncut(a) + ("-" + Uncut(b))
  {
    BoundedIsFirm(a);
    BoundedIsFirm(b);
    DashesMeans(between);
    CollapsedParts(Map(a, Plain), Map(between, Plain), Map(b, Plain));
    MapConcat(between, b, Plain);
    MapConcat(a, between + b, Plain);
    BoundedTogether(a, between + b);
    BoundedIsCollapsed(a + (between + b));
    BoundedIsCollapsed(a);
    BoundedIsCollapsed(b);
  }

  // What surrounds the first and last letter or digit is dropped.
  lemma SlugInside(front: string, s: string, back: string)
    requires Bounded(s)
    requires forall i :: 0 <= i < |front| ==> !Alphanumeric(front[i])
    requires forall i :: 0 <= i < |back| ==> !Alphanumeric(back[i])
    ensures Uncut(front + (s + back)) == Uncut(s)
  {
    var plain, dashes, tail := Map(s, Plain), Map(front, Plain), Map(back, Plain);
    BoundedIsFirm(s);
    BoundedIsCollapsed(s);
    DashesMeans(front);
    DashesMeans(back);
    MapConcat(s, back, Plain);
    MapConcat(front, s + back, Plain);
    CollapsedSurrounded(dashes, plain, tail);
    TrimmedSurrounded(if front == "" then "" else "-", Collapsed(plain), if back == "" then "" else "-");
  }

  lemma CollapsedSurrounded(front: string, s: string, back: string)
    requires Dashes(front) && Firm(s) && Dashes(back)
    ensures Collapsed(front + (s + back)) ==
              (if front == "" then "" else "-") + (Collapsed(s) + if back == "" then "" else "-")
  {
    DashesCollapse(front);
    DashesCollapse(back);
    CollapsedApart(s, back);
    CollapsedApart(front, s + back);
  }

  lemma TrimmedSurrounded(front: string, s: string, back: string)
    requires Firm(s) && (front == "" || front == "-") && (back == "" || back == "-")
    ensures TrimEnd(TrimStart(front + (s + back))) == s
  {
    assert front == "-" ==> (front + (s + back))[1..] == s + back;
    assert front == "" ==> front + (s + back) == s + back;
    assert TrimStart(front + (s + back)) == s + back;
    assert back == "-" ==> (s + back)[..|s + back| - 1] == s;
    assert back == "" ==> s + back == s;
  }

  // An id is the kind, a dash and the slug; a value without letters and digits is unknown.
  lemma NodeIdMeans(kind: string, value: string)
    ensures if forall i :: 0 <= i < |value| ==> !Alphanumeric(value[i]) then NodeId(kind, value) == kind + "-unknown"
            else NodeId(kind, value) == kind + "-" + Slug(value) && Slug(value) != ""
  {
    if forall i :: 0 <= i < |value| ==> !Alphanumeric(value[i]) {
      DashesMeans(value);
      DashesCollapse(Map(value, Plain));
      assert "-"[1..] == "" && TrimStart("-") == TrimStart("") == "";
      assert Uncut(value) == "" && Slug(value) == "";
      assert kind + "-" + "unknown" == kind + "-unknown";
    } else {
      var front, s, back := Inside(value);
      SlugInside(front, s, back);
      BoundedIsCollapsed(s);
    }
  }

  // A text with a letter or digit, from the first to the last of them.
  lemma Inside(value: string) returns (front: string, s: string, back: string)
    requires exists i :: 0 <= i < |value| && Alphanumeric(value[i])
    ensures value == front + (s + back) && Bounded(s)
    ensures forall i :: 0 <= i < |front| ==> !Alphanumeric(front[i])
    ensures forall i :: 0 <= i < |back| ==> !Alphanumeric(back[i])
  {
    var first := FirstOfThem(value, 0);
    var last := LastOfThem(value, |value|);
    front, s, back := value[..first], value[first..last + 1], value[last + 1..];
  }

  lemma FirstOfThem(value: string, from: nat) returns (k: nat)
    requires exists i :: from <= i < |value| && Alphanumeric(value[i])
    ensures from <= k < |value| && Alphanumeric(value[k])
    ensures forall i :: from <= i < k ==> !Alphanumeric(value[i])
    decreases |value| - from
  {
    if Alphanumeric(value[from]) {
      k := from;
    } else {
      k := FirstOfThem(value, from + 1);
    }
  }

  lemma LastOfThem(value: string, to: nat) returns (k: nat)
    requires to <= |value| && exists i :: 0 <= i < to && Alphanumeric(value[i])
    ensures k < to && Alphanumeric(value[k])
    ensures forall i :: k < i < to ==> !Alphanumeric(value[i])
  {
    if Alphanumeric(value[to - 1]) {
      k := to - 1;
    } else {
      k := LastOfThem(value, to - 1);
    }
  }

  lemma IdHasNoNul(kind: string, value: string)
    requires '\0' !in kind
    ensures '\0' !in NodeId(kind, value)
  {
    SlugMeans(value);
  }

  // ----- what is offered, in order -----

  const MAX_FILES := 12
  const MAX_LISTED := 8
  const MAX_LINKED := 4
  const MAX_NODES := 28
  const MAX_EDGES := 64

  function FileNode(detail: string): string -> Node {
    (file: string) => Node(NodeId("file", file), "file", file, Some(file), detail)
  }

  function HistoryNode(detail: string): Node {
    Node("history-context", "history_context", "Prior commits, decisions, agents, and command evidence", None, detail)
  }

  const BLAST_NODE :=
    Node("blast-radius", "blast_radius", "Blast-radius summary", None, "computed from repo relationships")

  function CandidateNode(c: Candidate): Node {
    var file := if c.files == [] then None else Some(c.files[0]);
    Node(NodeId("candidate", c.id), "evidence_candidate", c.id, file, c.detail)
  }

  function GateNode(gate: Gate): Node {
    Node(NodeId("gate", gate.id), "procedure_gate", gate.id, None, gate.detail)
  }

  function FileEdge(kind: string, to: string, confidence: real): string -> Edge {
    (file: string) => FocusedGraph.Edge(NodeId("file", file), kind, to, confidence)
  }

  function GateEdge(gate: Gate): string -> Edge {
    (id: string) => FocusedGraph.Edge(NodeId("candidate", id), "requires_gate", NodeId("gate", gate.id), 0.86)
  }

  function Affected(c: Candidate): seq<string> {
    Take(c.files, MAX_LINKED)
  }

  function CandidateNodes(cs: seq<Candidate>): seq<Node> {
    if cs == [] then [] else
      var c := cs[|cs| - 1];
      CandidateNodes(cs[..|cs| - 1]) + [CandidateNode(c)] + Map(Affected(c), FileNode("candidate-affected file"))
  }

  function RaisesEdges(c: Candidate): seq<Edge> {
    Map(Affected(c), FileEdge("raises_candidate", NodeId("candidate", c.id), c.confidence))
  }

  function CandidateEdges(cs: seq<Candidate>): seq<Edge> {
    if cs == [] then [] else CandidateEdges(cs[..|cs| - 1]) + RaisesEdges(cs[|cs| - 1])
  }

  function RequiresEdges(gate: Gate): seq<Edge> {
    Map(Take(gate.candidates, MAX_LINKED), GateEdge(gate))
  }

  function GateEdges(gates: seq<Gate>): seq<Edge> {
    if gates == [] then [] else
      var gate := gates[|gates| - 1];
      GateEdges(gates[..|gates| - 1]) + RequiresEdges(gate)
  }

  function HistoryNodes(x: Review): seq<Node> {
    if x.history.Some? then [HistoryNode(x.history.value)] else []
  }

  function HistoryEdges(x: Review): seq<Edge> {
    if x.history.None? then [] else
      Map(Take(x.files, MAX_FILES), FileEdge("has_history_context", "history-context", 0.74))
  }

  function ContextNodes(x: Review): seq<Node> {
    Map(Take(x.files, MAX_FILES), FileNode("changed file"))
    + HistoryNodes(x)
    + if x.blast then [BLAST_NODE] else []
  }

  function ContextEdges(x: Review): seq<Edge> {
    HistoryEdges(x)
    + if x.blast then Map(Take(x.files, MAX_FILES), FileEdge("has_blast_radius", "blast-radius", 0.68)) else []
  }

  function OfferedNodes(x: Review): seq<Node> {
    ContextNodes(x) + CandidateNodes(Take(x.candidates, MAX_LISTED)) + Map(Take(x.gates, MAX_LISTED), GateNode)
  }

  function OfferedEdges(x: Review): seq<Edge> {
    ContextEdges(x) + CandidateEdges(Take(x.candidates, MAX_LISTED)) + GateEdges(Take(x.gates, MAX_LISTED))
  }

  function IdOf(): Node -> string {
    (n: Node) => n.id
  }

  function RelationOf(): Edge -> (string, string, string) {
    (e: Edge) => (e.src, e.dst, e.kind)
  }

  // Everything offered, the first of each id and of each relation.
  function Full(x: Review): Graph {
    Graph(FirstOfEach(OfferedNodes(x), IdOf()), FirstOfEach(OfferedEdges(x), RelationOf()), false)
  }

  function Built(x: Review): Graph {
    var full := Full(x);
    Graph(
      Take(full.nodes, MAX_NODES),
      Take(full.edges, MAX_EDGES),
      |x.files| > MAX_FILES || |full.nodes| > MAX_NODES || |full.edges| > MAX_EDGES)
  }

  // ----- the loops -----

  // push_graph_node
  method PushNode(nodes: seq<Node>, n: Node) returns (r: seq<Node>)
    ensures r == PushNew(nodes, n, IdOf())
  {
    r := nodes;
    if !exists i :: 0 <= i < |nodes| && nodes[i].id == n.id {
      r := r + [n];
    }
  }

  // push_graph_edge
  method PushEdge(edges: seq<Edge>, e: Edge) returns (r: seq<Edge>)
    ensures r == PushNew(edges, e, RelationOf())
  {
    r := edges;
    if !exists i :: 0 <= i < |edges| && edges[i].src == e.src && edges[i].dst == e.dst && edges[i].kind == e.kind {
      r := r + [e];
    }
  }

  lemma PushMapped<S, T, U>(start: seq<T>, s: seq<S>, n: nat, f: S -> T, key: T -> U)
    requires n < |s|
    ensures PushAllNew(start, Map(s[..n + 1], f), key)
         == PushNew(PushAllNew(start, Map(s[..n], f), key), f(s[n]), key)
  {
    assert Map(s[..n + 1], f) == Map(s[..n], f) + [f(s[n])];
    PushOneMore(start, Map(s[..n], f), f(s[n]), key);
  }

  method PushFiles(nodes: seq<Node>, files: seq<string>) returns (r: seq<Node>)
    ensures r == PushAllNew(nodes, Map(files, FileNode("changed file")), IdOf())
  {
    r := nodes;
    for i := 0 to |files|
      invariant r == PushAllNew(nodes, Map(files[..i], FileNode("changed file")), IdOf())
    {
      PushMapped(nodes, files, i, FileNode("changed file"), IdOf());
      var id := GraphNodeId("file", files[i]);
      r := PushNode(r, Node(id, "file", files[i], Some(files[i]), "changed file"));
    }
    assert files[..|files|] == files;
  }

  // The loop that links every file to one node of context.
  method PushLinks(edges: seq<Edge>, files: seq<string>, kind: string, to: string, confidence: real)
    returns (r: seq<Edge>)
    ensures r == PushAllNew(edges, Map(files, FileEdge(kind, to, confidence)), RelationOf())
  {
    r := edges;
    for i := 0 to |files|
      invariant r == PushAllNew(edges, Map(files[..i], FileEdge(kind, to, confidence)), RelationOf())
    {
      PushMapped(edges, files, i, FileEdge(kind, to, confidence), RelationOf());
      var id := GraphNodeId("file", files[i]);
      r := PushEdge(r, FocusedGraph.Edge(id, kind, to, confidence));
    }
    assert files[..|files|] == files;
  }

  method PushAffectedFile(nodes: seq<Node>, edges: seq<Edge>, file: string, to: string, confidence: real)
    returns (ns: seq<Node>, es: seq<Edge>)
    ensures ns == PushNew(nodes, FileNode("candidate-affected file")(file), IdOf())
    ensures es == PushNew(edges, FileEdge("raises_candidate", to, confidence)(file), RelationOf())
  {
    var fileId := GraphNodeId("file", file);
    ns := PushNode(nodes, Node(fileId, "file", file, Some(file), "candidate-affected file"));
    es := PushEdge(edges, FocusedGraph.Edge(fileId, "raises_candidate", to, confidence));
  }

  // The loop over the files of one candidate.
  method PushAffected(nodes: seq<Node>, edges: seq<Edge>, c: Candidate, id: string)
    returns (ns: seq<Node>, es: seq<Edge>)
    requires id == NodeId("candidate", c.id)
    ensures ns == PushAllNew(nodes, Map(Affected(c), FileNode("candidate-affected file")), IdOf())
    ensures es == PushAllNew(edges, RaisesEdges(c), RelationOf())
  {
    ns, es := nodes, edges;
    var files := Take(c.files, MAX_LINKED);
    ghost var asNode, asEdge := FileNode("candidate-affected file"), FileEdge("raises_candidate", id, c.confidence);
    for i := 0 to |files|
      invariant ns == PushAllNew(nodes, Map(files[..i], asNode), IdOf())
      invariant es == PushAllNew(edges, Map(files[..i], asEdge), RelationOf())
    {
      PushMapped(nodes, files, i, asNode, IdOf());
      PushMapped(edges, files, i, asEdge, RelationOf());
      ns, es := PushAffectedFile(ns, es, files[i], id, c.confidence);
    }
    assert files[..|files|] == files;
  }

  method PushCandidates(nodes: seq<Node>, edges: seq<Edge>, candidates: seq<Candidate>)
    returns (ns: seq<Node>, es: seq<Edge>)
    ensures ns == PushAllNew(nodes, CandidateNodes(candidates), IdOf())
    ensures es == PushAllNew(edges, CandidateEdges(candidates), RelationOf())
  {
    ns, es := nodes, edges;
    for i := 0 to |candidates|
      invariant ns == PushAllNew(nodes, CandidateNodes(candidates[..i]), IdOf())
      invariant es == PushAllNew(edges, CandidateEdges(candidates[..i]), RelationOf())
    {
      var c, before := candidates[i], candidates[..i];
      ghost var files := Map(Affected(c), FileNode("candidate-affected file"));
      assert candidates[..i + 1][..i] == before;
      PushOneMore(nodes, CandidateNodes(before), CandidateNode(c), IdOf());
      PushInTwo(nodes, CandidateNodes(before) + [CandidateNode(c)], files, IdOf());
      PushInTwo(edges, CandidateEdges(before), RaisesEdges(c), RelationOf());
      var id := GraphNodeId("candidate", c.id);
      ns := PushNode(ns, CandidateNode(c).(id := id));
      ns, es := PushAffected(ns, es, c, id);
    }
    assert candidates[..|candidates|] == candidates;
  }

  // The loop over the candidates of one gate.
  method PushRequired(edges: seq<Edge>, gate: Gate, id: string) returns (es: seq<Edge>)
    requires id == NodeId("gate", gate.id)
    ensures es == PushAllNew(edges, RequiresEdges(gate), RelationOf())
  {
    es := edges;
    var candidates := Take(gate.candidates, MAX_LINKED);
    for i := 0 to |candidates|
      invariant es == PushAllNew(edges, Map(candidates[..i], GateEdge(gate)), RelationOf())
    {
      PushMapped(edges, candidates, i, GateEdge(gate), RelationOf());
      var candidateId := GraphNodeId("candidate", candidates[i]);
      es := PushEdge(es, FocusedGraph.Edge(candidateId, "requires_gate", id, 0.86));
    }
    assert candidates[..|candidates|] == candidates;
  }

  method PushGates(nodes: seq<Node>, edges: seq<Edge>, gates: seq<Gate>)
    returns (ns: seq<Node>, es: seq<Edge>)
    ensures ns == PushAllNew(nodes, Map(gates, GateNode), IdOf())
    ensures es == PushAllNew(edges, GateEdges(gates), RelationOf())
  {
    ns, es := nodes, edges;
    for i := 0 to |gates|
      invariant ns == PushAllNew(nodes, Map(gates[..i], GateNode), IdOf())
      invariant es == PushAllNew(edges, GateEdges(gates[..i]), RelationOf())
    {
      var gate := gates[i];
      assert gates[..i + 1][..i] == gates[..i];
      PushMapped(nodes, gates, i, GateNode, IdOf());
      PushInTwo(edges, GateEdges(gates[..i]), RequiresEdges(gate), RelationOf());
      var id := GraphNodeId("gate", gate.id);
      ns := PushNode(ns, GateNode(gate).(id := id));
      es := PushRequired(es, gate, id);
    }
    assert gates[..|gates|] == gates;
  }

  // The files and, where there is one, the nodes of context.
  method PushContext(x: Review, files: seq<string>) returns (nodes: seq<Node>, edges: seq<Edge>)
    requires files == Take(x.files, MAX_FILES)
    ensures nodes == FirstOfEach(ContextNodes(x), IdOf())
    ensures edges == FirstOfEach(ContextEdges(x), RelationOf())
  {
    nodes := PushFiles([], files);
    edges := [];
    ghost var fileNodes := Map(files, FileNode("changed file"));
    ghost var blastEdges := Map(files, FileEdge("has_blast_radius", "blast-radius", 0.68));
    if x.history.Some? {
      PushOneMore([], fileNodes, HistoryNode(x.history.value), IdOf());
      nodes := PushNode(nodes, HistoryNode(x.history.value));
      edges := PushLinks(edges, files, "has_history_context", "history-context", 0.74);
    }
    ghost var upToHistory := fileNodes + HistoryNodes(x);
    assert HistoryNodes(x) == [] ==> upToHistory == fileNodes;
    if x.blast {
      PushOneMore([], upToHistory, BLAST_NODE, IdOf());
      PushInTwo([], HistoryEdges(x), blastEdges, RelationOf());
      nodes := PushNode(nodes, BLAST_NODE);
      edges := PushLinks(edges, files, "has_blast_radius", "blast-radius", 0.68);
    } else {
      assert upToHistory + [] == upToHistory && HistoryEdges(x) + [] == HistoryEdges(x);
    }
  }

  method BuildReviewMemoryGraph(x: Review) returns (g: Graph)
    ensures g == Built(x)
  {
    var truncated := |x.files| > MAX_FILES;
    var nodes, edges := PushContext(x, Take(x.files, MAX_FILES));
    var candidates, gates := Take(x.candidates, MAX_LISTED), Take(x.gates, MAX_LISTED);
    PushInTwo([], ContextNodes(x), CandidateNodes(candidates), IdOf());
    PushInTwo([], ContextNodes(x) + CandidateNodes(candidates), Map(gates, GateNode), IdOf());
    PushInTwo([], ContextEdges(x), CandidateEdges(candidates), RelationOf());
    PushInTwo([], ContextEdges(x) + CandidateEdges(candidates), GateEdges(gates), RelationOf());
    nodes, edges := PushCandidates(nodes, edges, candidates);
    nodes, edges := PushGates(nodes, edges, gates);
    if |nodes| > MAX_NODES {
      nodes := nodes[..MAX_NODES];
      truncated := true;
    }
    if |edges| > MAX_EDGES {
      edges := edges[..MAX_EDGES];
      truncated := true;
    }
    g := Graph(nodes, edges, truncated);
  }

  // ----- what is offered, one by one -----

  // One of the first n.
  ghost predicate Among<T>(x: T, s: seq<T>, n: nat) {
    exists i :: 0 <= i < n && i < |s| && s[i] == x
  }

  lemma TakeMeans<T>(s: seq<T>, n: nat)
    ensures forall x :: x in Take(s, n) <==> Among(x, s, n)
  {
    forall x
      ensures x in Take(s, n) <==> Among(x, s, n)
    {
      if Among(x, s, n) {
        var i :| 0 <= i < n && i < |s| && s[i] == x;
        assert Take(s, n)[i] == x;
      }
    }
  }

  lemma MapMeans<S, T>(s: seq<S>, f: S -> T, y: T)
    ensures y in Map(s, f) <==> exists x :: x in s && y == f(x)
  {
    if x :| x in s && y == f(x) {
      var i :| 0 <= i < |s| && s[i] == x;
      assert Map(s, f)[i] == y;
    }
  }

  lemma {:induction false} InCandidateEdges(cs: seq<Candidate>, e: Edge)
    ensures e in CandidateEdges(cs) <==>
              exists c, file :: c in cs && Among(file, c.files, 4) &&
                e == FocusedGraph.Edge(
                       NodeId("file", file), "raises_candidate", NodeId("candidate", c.id), c.confidence)
  {
    if cs != [] {
      var front, last := cs[..|cs| - 1], cs[|cs| - 1];
      assert cs == front + [last];
      InCandidateEdges(front, e);
      TakeMeans(last.files, 4);
      MapMeans(Affected(last), FileEdge("raises_candidate", NodeId("candidate", last.id), last.confidence), e);
    }
  }

  lemma {:induction false} InGateEdges(gates: seq<Gate>, e: Edge)
    ensures e in GateEdges(gates) <==>
              exists gate, id :: gate in gates && Among(id, gate.candidates, 4) &&
                e == FocusedGraph.Edge(NodeId("candidate", id), "requires_gate", NodeId("gate", gate.id), 0.86)
  {
    if gates != [] {
      var front, last := gates[..|gates| - 1], gates[|gates| - 1];
      assert gates == front + [last];
      InGateEdges(front, e);
      TakeMeans(last.candidates, 4);
      MapMeans(Take(last.candidates, MAX_LINKED), GateEdge(last), e);
    }
  }

  lemma {:induction false} InCandidateNodes(cs: seq<Candidate>, n: Node)
    ensures n in CandidateNodes(cs) <==>
              || (exists c :: c in cs && n ==
                    Node(NodeId("candidate", c.id), "evidence_candidate", c.id,
                         if c.files == [] then None else Some(c.files[0]), c.detail))
              || (exists c, file :: c in cs && Among(file, c.files, 4) &&
                    n == Node(NodeId("file", file), "file", file, Some(file), "candidate-affected file"))
  {
    if cs != [] {
      var front, last := cs[..|cs| - 1], cs[|cs| - 1];
      assert cs == front + [last];
      InCandidateNodes(front, n);
      TakeMeans(last.files, 4);
      MapMeans(Affected(last), FileNode("candidate-affected file"), n);
    }
  }

  lemma {:induction false} PushingKeepsPrefix<T, U>(s: seq<T>, t: seq<T>, key: T -> U)
    ensures s <= PushAllNew(s, t, key)
  {
    if t != [] {
      PushingKeepsPrefix(s, t[..|t| - 1], key);
    }
  }

  // The nodes of the changed files, as offered.
  function ChangedNodes(x: Review): seq<Node> {
    Map(Take(x.files, MAX_FILES), FileNode("changed file"))
  }

  lemma FirstsOfPart(a: seq<Node>, b: seq<Node>)
    ensures FirstOfEach(a, IdOf()) <= FirstOfEach(a + b, IdOf())
  {
    PushInTwo([], a, b, IdOf());
    PushingKeepsPrefix(FirstOfEach(a, IdOf()), b, IdOf());
  }

  lemma ChangedComeFirst(x: Review)
    ensures FirstOfEach(ChangedNodes(x), IdOf()) <= Built(x).nodes
  {
    var blast := if x.blast then [BLAST_NODE] else [];
    var candidates, gates := CandidateNodes(Take(x.candidates, MAX_LISTED)), Map(Take(x.gates, MAX_LISTED), GateNode);
    FirstsOfPart(ChangedNodes(x), HistoryNodes(x));
    FirstsOfPart(ChangedNodes(x) + HistoryNodes(x), blast);
    FirstsOfPart(ContextNodes(x), candidates);
    FirstsOfPart(ContextNodes(x) + candidates, gates);
    FirstsInOrderBound(ChangedNodes(x));
    TakeKeepsPrefix(FirstOfEach(ChangedNodes(x), IdOf()), Full(x).nodes, MAX_NODES);
  }

  lemma TakeKeepsPrefix<T>(s: seq<T>, t: seq<T>, n: nat)
    requires s <= t && |s| <= n
    ensures s <= Take(t, n)
  {
  }

  lemma FirstsInOrderBound(nodes: seq<Node>)
    ensures |FirstOfEach(nodes, IdOf())| <= |nodes|
  {
    FirstOfEachMeans(nodes, IdOf());
    ImageSize(FirstOfEach(nodes, IdOf()), IdOf());
    ImageSize(nodes, IdOf());
  }

  // No cap touches the changed files: each of the first twelve has a node of its id, which is that
  // of a changed file.
  lemma ChangedFilesAreKept(x: Review, file: string)
    requires Among(file, x.files, 12)
    ensures exists other :: Among(other, x.files, 12) && NodeId("file", other) == NodeId("file", file) &&
              Node(NodeId("file", other), "file", other, Some(other), "changed file") in Built(x).nodes
  {
    var mapped := ChangedNodes(x);
    ChangedComeFirst(x);
    TakeMeans(x.files, 12);
    FirstOfEachMeans(mapped, IdOf());
    MapMeans(Take(x.files, MAX_FILES), FileNode("changed file"), FileNode("changed file")(file));
    assert NodeId("file", file) in Image(mapped, IdOf());
    var n :| n in FirstOfEach(mapped, IdOf()) && n.id == NodeId("file", file);
    MapMeans(Take(x.files, MAX_FILES), FileNode("changed file"), n);
    assert n in Built(x).nodes;
  }

  // Ids of the three kinds never meet, nor do they meet the two ids of context.
  lemma KindsNeverMeet(a: string, b: string)
    ensures NodeId("file", a) != NodeId("candidate", b) && NodeId("file", a) != NodeId("gate", b)
    ensures NodeId("candidate", a) != NodeId("gate", b)
    ensures "history-context" != NodeId("file", a) && "blast-radius" != NodeId("file", a)
    ensures "history-context" != NodeId("candidate", a) && "blast-radius" != NodeId("candidate", a)
    ensures "history-context" != NodeId("gate", a) && "blast-radius" != NodeId("gate", a)
  {
    assert NodeId("file", a)[0] == 'f' && NodeId("candidate", a)[0] == 'c' && NodeId("candidate", b)[0] == 'c';
    assert NodeId("gate", a)[0] == 'g' && NodeId("gate", b)[0] == 'g';
  }

  // The relations offered: each changed file to the nodes of context, each candidate from its
  // files, each gate from its candidates.
  lemma OfferedEdgesExactly(x: Review, e: Edge)
    ensures e in OfferedEdges(x) <==>
              || (exists file :: x.history.Some? && Among(file, x.files, 12) &&
                    e == FocusedGraph.Edge(NodeId("file", file), "has_history_context", "history-context", 0.74))
              || (exists file :: x.blast && Among(file, x.files, 12) &&
                    e == FocusedGraph.Edge(NodeId("file", file), "has_blast_radius", "blast-radius", 0.68))
              || (exists c, file :: Among(c, x.candidates, 8) && Among(file, c.files, 4) &&
                    e == FocusedGraph.Edge(
                           NodeId("file", file), "raises_candidate", NodeId("candidate", c.id), c.confidence))
              || (exists gate, id :: Among(gate, x.gates, 8) && Among(id, gate.candidates, 4) &&
                    e == FocusedGraph.Edge(NodeId("candidate", id), "requires_gate", NodeId("gate", gate.id), 0.86))
  {
    TakeMeans(x.files, 12);
    TakeMeans(x.candidates, 8);
    TakeMeans(x.gates, 8);
    MapMeans(Take(x.files, MAX_FILES), FileEdge("has_history_context", "history-context", 0.74), e);
    MapMeans(Take(x.files, MAX_FILES), FileEdge("has_blast_radius", "blast-radius", 0.68), e);
    InCandidateEdges(Take(x.candidates, MAX_LISTED), e);
    InGateEdges(Take(x.gates, MAX_LISTED), e);
  }

  // The nodes offered.
  lemma OfferedNodesExactly(x: Review, n: Node)
    ensures n in OfferedNodes(x) <==>
              || (exists file :: Among(file, x.files, 12) &&
                    n == Node(NodeId("file", file), "file", file, Some(file), "changed file"))
              || (x.history.Some? && n ==
                    Node("history-context", "history_context",
                         "Prior commits, decisions, agents, and command evidence", None, x.history.value))
              || (x.blast && n ==
                    Node("blast-radius", "blast_radius", "Blast-radius summary", None,
                         "computed from repo relationships"))
              || (exists c :: Among(c, x.candidates, 8) && n ==
                    Node(NodeId("candidate", c.id), "evidence_candidate", c.id,
                         if c.files == [] then None else Some(c.files[0]), c.detail))
              || (exists c, file :: Among(c, x.candidates, 8) && Among(file, c.files, 4) &&
                    n == Node(NodeId("file", file), "file", file, Some(file), "candidate-affected file"))
              || (exists gate :: Among(gate, x.gates, 8) &&
                    n == Node(NodeId("gate", gate.id), "procedure_gate", gate.id, None, gate.detail))
  {
    TakeMeans(x.files, 12);
    TakeMeans(x.candidates, 8);
    TakeMeans(x.gates, 8);
    MapMeans(Take(x.files, MAX_FILES), FileNode("changed file"), n);
    MapMeans(Take(x.gates, MAX_LISTED), GateNode, n);
    InCandidateNodes(Take(x.candidates, MAX_LISTED), n);
  }

  // ----- what the focused graph gets -----

  predicate NoNul(e: Edge) {
    '\0' !in e.src && '\0' !in e.kind
  }

  lemma {:induction false} CandidateEdgesHaveNoNul(cs: seq<Candidate>)
    ensures forall e :: e in CandidateEdges(cs) ==> NoNul(e)
  {
    if cs != [] {
      CandidateEdgesHaveNoNul(cs[..|cs| - 1]);
      var c := cs[|cs| - 1];
      MappedHaveNoNul(Affected(c), "file", FileEdge("raises_candidate", NodeId("candidate", c.id), c.confidence));
    }
  }

  lemma {:induction false} GateEdgesHaveNoNul(gates: seq<Gate>)
    ensures forall e :: e in GateEdges(gates) ==> NoNul(e)
  {
    if gates != [] {
      GateEdgesHaveNoNul(gates[..|gates| - 1]);
      var gate := gates[|gates| - 1];
      MappedHaveNoNul(Take(gate.candidates, MAX_LINKED), "candidate", GateEdge(gate));
    }
  }

  lemma MappedHaveNoNul(values: seq<string>, kind: string, edge: string -> Edge)
    requires '\0' !in kind
    requires forall v :: edge(v).src == NodeId(kind, v) && '\0' !in edge(v).kind
    ensures forall e :: e in Map(values, edge) ==> NoNul(e)
  {
    forall v ensures NoNul(edge(v)) {
      IdHasNoNul(kind, v);
    }
  }

  lemma OfferedHaveNoNul(x: Review)
    ensures forall e :: e in OfferedEdges(x) ==> NoNul(e)
  {
    var files := Take(x.files, MAX_FILES);
    MappedHaveNoNul(files, "file", FileEdge("has_history_context", "history-context", 0.74));
    MappedHaveNoNul(files, "file", FileEdge("has_blast_radius", "blast-radius", 0.68));
    CandidateEdgesHaveNoNul(Take(x.candidates, MAX_LISTED));
    GateEdgesHaveNoNul(Take(x.gates, MAX_LISTED));
  }

  // Before the caps, every id and every relation offered is there, each once, and edge keys tell
  // relations apart.
  lemma FullMeans(x: Review)
    ensures var nodes, edges := Full(x).nodes, Full(x).edges;
      && (forall i, j :: 0 <= i < j < |nodes| ==> nodes[i].id != nodes[j].id)
      && (forall n :: n in nodes ==> n in OfferedNodes(x))
      && (forall n :: n in OfferedNodes(x) ==> exists m :: m in nodes && m.id == n.id)
      && (forall i, j :: 0 <= i < j < |edges| ==>
            edges[i].src != edges[j].src || edges[i].dst != edges[j].dst || edges[i].kind != edges[j].kind)
      && (forall e :: e in edges ==> e in OfferedEdges(x))
      && (forall e :: e in OfferedEdges(x) ==>
            exists f :: f in edges && f.src == e.src && f.dst == e.dst && f.kind == e.kind)
    ensures DistinctBy(Full(x).edges, FocusedGraph.KeyOf())
  {
    var nodes, edges := Full(x).nodes, Full(x).edges;
    FirstOfEachMeans(OfferedNodes(x), IdOf());
    FirstOfEachMeans(OfferedEdges(x), RelationOf());
    assert forall i, j :: 0 <= i < j < |nodes| ==> IdOf()(nodes[i]) != IdOf()(nodes[j]);
    assert forall i, j :: 0 <= i < j < |edges| ==> RelationOf()(edges[i]) != RelationOf()(edges[j]);
    forall n | n in OfferedNodes(x)
      ensures exists m :: m in nodes && m.id == n.id
    {
      assert IdOf()(n) in Image(OfferedNodes(x), IdOf());
    }
    forall e | e in OfferedEdges(x)
      ensures exists f :: f in edges && f.src == e.src && f.dst == e.dst && f.kind == e.kind
    {
      assert RelationOf()(e) in Image(OfferedEdges(x), RelationOf());
    }
    DistinctKeys(x);
  }

  lemma DistinctKeys(x: Review)
    ensures DistinctBy(Full(x).edges, FocusedGraph.KeyOf())
  {
    FirstOfEachMeans(OfferedEdges(x), RelationOf());
    OfferedHaveNoNul(x);
    var edges := Full(x).edges;
    forall i, j | 0 <= i < j < |edges|
      ensures FocusedGraph.Key(edges[i]) != FocusedGraph.Key(edges[j])
    {
      assert edges[i] in OfferedEdges(x) && edges[j] in OfferedEdges(x);
      assert RelationOf()(edges[i]) != RelationOf()(edges[j]);
      if FocusedGraph.Key(edges[i]) == FocusedGraph.Key(edges[j]) {
        FocusedGraph.KeyIsInjective(edges[i], edges[j]);
      }
    }
  }

  // The caps, and what they are flagged for.
  lemma BuiltIsBounded(x: Review)
    ensures var g, full := Built(x), Full(x);
      && |g.nodes| <= 28 && |g.edges| <= 64 && g.nodes <= full.nodes && g.edges <= full.edges
      && (g.truncated <==> |x.files| > 12 || |full.nodes| > 28 || |full.edges| > 64)
      && (!g.truncated ==> g.nodes == full.nodes && g.edges == full.edges)
  {
  }

  // The graph as the focusing sees it, `finds` being the verdict of the text match.
  function View(g: Graph, finds: Node -> bool): FocusedGraph.Graph {
    FocusedGraph.Graph(Map(g.nodes, (n: Node) => FocusedGraph.Node(n.id, finds(n))), g.edges, g.truncated)
  }

  // Across both sides: where the focused graph of a built graph is not flagged, it is the whole
  // one-hop neighbourhood in the graph of everything offered, before the caps on nodes and edges.
  lemma UnsetFlagMeansNothingLost(x: Review, finds: Node -> bool)
    ensures var r := FocusedGraph.Focused(View(Built(x), finds));
      !r.truncated ==>
        && r.nodes == FocusedGraph.HopNodes(View(Full(x), finds))
        && r.edges == FocusedGraph.HopEdges(View(Full(x), finds))
  {
    var g, all := View(Built(x), finds), View(Full(x), finds);
    if !FocusedGraph.Focused(g).truncated {
      assert g == all;
      FullMeans(x);
      forall i, j | 0 <= i < j < |all.nodes|
        ensures all.nodes[i].id != all.nodes[j].id
      {
        assert Full(x).nodes[i].id != Full(x).nodes[j].id;
      }
      FocusedGraph.UnsetFlagMeansComplete(g);
    }
  }
}
