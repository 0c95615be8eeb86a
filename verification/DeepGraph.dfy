/**
 * Symbols collected from the raw answer of the deep graph tool. The traversal mutates an output
 * list and a set of visited cells; its meaning is a list of tasks, done first to last, in which the
 * tasks of a cell come before what was left.
 */
module DeepGraph {
  import opened Options
  import opened Reachability
  import opened SymbolReader

  // ----- the relation, written out -----

  ghost predicate Holds(cell: Cell, b: Addr) {
    exists i :: 0 <= i < SlotCount(cell) && Slot(cell, i) == Ref(b)
  }

  ghost predicate FieldLeads(heap: Heap, key: string, v: Value, b: Addr) {
    && key !in ["summary", "meta", "stats", "schema"]
    && if key == "by_depth" then v.Ref? && v.addr in heap && Holds(heap[v.addr], b) else v == Ref(b)
  }

  // One cell leads to another: an array to its items, an object through its fields; a `by_depth`
  // child is looked through.
  ghost function Leads(heap: Heap): (Addr, Addr) -> bool {
    (a: Addr, b: Addr) =>
      && a in heap
      && match heap[a]
         case Arr(items) => Ref(b) in items
         case Obj(fields) => exists i :: 0 <= i < |fields| && FieldLeads(heap, fields[i].0, fields[i].1, b)
  }

  ghost predicate Visits(heap: Heap, v: Value, a: Addr) {
    v.Ref? && Reachable(Leads(heap), v.addr, a)
  }

  // The first key that is a depth key, with no `by_depth` before it.
  ghost predicate FirstDepthKey(fields: seq<(string, Value)>, i: nat) {
    && i < |fields| && IsDepthKey(fields[i].0)
    && forall j :: 0 <= j < i ==> !IsDepthKey(fields[j].0) && fields[j].0 != "by_depth"
  }

  lemma FirstIsFound(fields: seq<(string, Value)>, i: nat)
    requires FirstDepthKey(fields, i)
    ensures FirstDepthField(fields, 0) == i && fields[i].0 != "by_depth" && FirstNumber(fields[i].0).Some?
    ensures fields[i].0 !in ["summary", "meta", "stats", "schema"]
  {
    DepthKeyHasNumber(fields[i].0);
  }

  ghost predicate LayerHolds(child: Cell, d: nat, b: Addr, e: nat) {
    match child
    case Arr(items) => e < |items| && items[e] == Ref(b)
    case Obj(fields) =>
      exists j :: 0 <= j < |fields| && fields[j].1 == Ref(b) && e == FirstNumber(fields[j].0).GetOr(d + 1)
  }

  ghost predicate FieldLeadsAt(heap: Heap, fields: seq<(string, Value)>, i: nat, d: nat, b: Addr, e: nat)
    requires i < |fields|
  {
    var key, v := fields[i].0, fields[i].1;
    && key !in ["summary", "meta", "stats", "schema"]
    && if key == "by_depth" then v.Ref? && v.addr in heap && LayerHolds(heap[v.addr], d, b, e)
       else v == Ref(b) && (e == d || (FirstDepthKey(fields, i) && Some(e) == FirstNumber(key)))
  }

  // At depth d, one cell leads to another at depth e.
  ghost predicate LeadsAt(heap: Heap, a: Addr, d: nat, b: Addr, e: nat) {
    && a in heap
    && match heap[a]
       case Arr(items) => Ref(b) in items && e == d
       case Obj(fields) => exists i :: 0 <= i < |fields| && FieldLeadsAt(heap, fields, i, d, b, e)
  }

  lemma LeadsAtLeads(heap: Heap, a: Addr, d: nat, b: Addr, e: nat)
    requires LeadsAt(heap, a, d, b, e)
    ensures Leads(heap)(a, b)
  {
    if heap[a].Obj? {
      var fields := heap[a].fields;
      var i :| 0 <= i < |fields| && FieldLeadsAt(heap, fields, i, d, b, e);
      if fields[i].0 == "by_depth" {
        var child := heap[fields[i].1.addr];
        if child.Arr? {
          assert Slot(child, e) == Ref(b);
        } else {
          var j :| 0 <= j < |child.fields| && child.fields[j].1 == Ref(b);
          assert Slot(child, j) == Ref(b);
        }
      }
      assert FieldLeads(heap, fields[i].0, fields[i].1, b);
    }
  }

  // ----- the traversal as a list of tasks -----

  // Offer a value as a symbol, or follow it to the cell it refers to.
  datatype Task = Offer(v: Value, depth: nat) | Follow(v: Value, depth: nat)

  // The expanded cells in order, and the depth each was expanded at.
  datatype Visit = Visit(order: seq<Addr>, at: map<Addr, nat>)

  datatype State = State(out: seq<Symbolish>, visit: Visit)

  const START := State([], Visit([], map[]))

  // The depth given to the entries of a `by_depth` child: the index in an array, the number in a
  // key, or one more than the depth so far.
  function Layer(child: Cell, i: nat, depth: nat): nat
    requires i < SlotCount(child)
  {
    if child.Arr? then i else FirstNumber(child.fields[i].0).GetOr(depth + 1)
  }

  // What expanding a cell at a depth does, in order: an array's items one after the other; what an
  // object holds under its first depth key, then its fields.
  function ItemTasks(items: seq<Value>, n: nat, depth: nat): seq<Task>
    requires n <= |items|
  {
    if n == 0 then []
    else ItemTasks(items, n - 1, depth) + [Offer(items[n - 1], depth), Follow(items[n - 1], depth)]
  }

  function LayerTasks(child: Cell, n: nat, depth: nat): seq<Task>
    requires n <= SlotCount(child)
  {
    if n == 0 then []
    else LayerTasks(child, n - 1, depth) + [Follow(Slot(child, n - 1), Layer(child, n - 1, depth))]
  }

  function FieldTasks(heap: Heap, key: string, v: Value, depth: nat): seq<Task> {
    if Skipped(key) then []
    else
      (if NamesSymbol(key) then [Offer(v, 0)] else [])
      + if key == "by_depth" && v.Ref? && v.addr in heap then LayerTasks(heap[v.addr], SlotCount(heap[v.addr]), depth)
        else [Follow(v, depth)]
  }

  function ObjectTasks(heap: Heap, fields: seq<(string, Value)>, n: nat, depth: nat): seq<Task>
    requires n <= |fields|
  {
    if n == 0 then []
    else ObjectTasks(heap, fields, n - 1, depth) + FieldTasks(heap, fields[n - 1].0, fields[n - 1].1, depth)
  }

  function EarlyTasks(fields: seq<(string, Value)>, depth: nat): seq<Task> {
    var d := FirstDepthField(fields, 0);
    if d < |fields| && fields[d].0 != "by_depth" then [Follow(fields[d].1, FirstNumber(fields[d].0).GetOr(depth + 1))]
    else []
  }

  function CellTasks(heap: Heap, cell: Cell, depth: nat): seq<Task> {
    match cell
    case Arr(items) => ItemTasks(items, |items|, depth)
    case Obj(fields) => EarlyTasks(fields, depth) + ObjectTasks(heap, fields, |fields|, depth)
  }

  function Emitted(heap: Heap, s: State, v: Value, depth: nat): State {
    var sym := SymbolFromValue(heap, v, Some(depth));
    if sym.Some? then s.(out := s.out + [sym.value]) else s
  }

  function Marked(visit: Visit, a: Addr, depth: nat): Visit {
    Visit(visit.order + [a], visit.at[a := depth])
  }

  // There is a cell to follow the value to, and it was not expanded yet.
  predicate Fresh(heap: Heap, visit: Visit, v: Value) {
    v.Ref? && v.addr in heap && v.addr !in visit.at
  }

  lemma FewerLeft(heap: Heap, visit: Visit, a: Addr, depth: nat)
    requires a in heap && a !in visit.at
    ensures heap.Keys - Marked(visit, a, depth).at.Keys < heap.Keys - visit.at.Keys
  {
    assert a in heap.Keys - visit.at.Keys && a !in heap.Keys - Marked(visit, a, depth).at.Keys;
  }

  // Tasks are done first to last, those of a cell before what was left.
  function Exec(heap: Heap, tasks: seq<Task>, s: State): State
    decreases heap.Keys - s.visit.at.Keys, |tasks|
  {
    if tasks == [] then s else
      match tasks[0]
      case Offer(v, depth) => Exec(heap, tasks[1..], Emitted(heap, s, v, depth))
      case Follow(v, depth) =>
        if Fresh(heap, s.visit, v) then
          FewerLeft(heap, s.visit, v.addr, depth);
          Exec(heap, CellTasks(heap, heap[v.addr], depth) + tasks[1..], s.(visit := Marked(s.visit, v.addr, depth)))
        else Exec(heap, tasks[1..], s)
  }

  lemma {:induction false} ExecConcat(heap: Heap, tasks: seq<Task>, more: seq<Task>, s: State)
    ensures Exec(heap, tasks + more, s) == Exec(heap, more, Exec(heap, tasks, s))
    decreases heap.Keys - s.visit.at.Keys, |tasks|
  {
    if tasks == [] {
      assert tasks + more == more;
    } else {
      assert (tasks + more)[0] == tasks[0] && (tasks + more)[1..] == tasks[1..] + more;
      match tasks[0]
      case Offer(v, depth) => ExecConcat(heap, tasks[1..], more, Emitted(heap, s, v, depth));
      case Follow(v, depth) =>
        if Fresh(heap, s.visit, v) {
          var first := CellTasks(heap, heap[v.addr], depth);
          assert first + (tasks[1..] + more) == (first + tasks[1..]) + more;
          FewerLeft(heap, s.visit, v.addr, depth);
          ExecConcat(heap, first + tasks[1..], more, s.(visit := Marked(s.visit, v.addr, depth)));
        } else {
          ExecConcat(heap, tasks[1..], more, s);
        }
    }
  }

  lemma ExecFollow(heap: Heap, v: Value, depth: nat, s: State)
    ensures Exec(heap, [Follow(v, depth)], s) ==
              if Fresh(heap, s.visit, v)
              then Exec(heap, CellTasks(heap, heap[v.addr], depth), s.(visit := Marked(s.visit, v.addr, depth)))
              else s
  {
    var rest := [Follow(v, depth)][1..];
    assert rest == [];
    if Fresh(heap, s.visit, v) {
      assert CellTasks(heap, heap[v.addr], depth) + rest == CellTasks(heap, heap[v.addr], depth);
    }
  }

  lemma ExecOffer(heap: Heap, v: Value, depth: nat, s: State)
    ensures Exec(heap, [Offer(v, depth)], s) == Emitted(heap, s, v, depth)
  {
    assert [Offer(v, depth)][1..] == [];
  }

  // One more field.
  lemma FieldStep(heap: Heap, fields: seq<(string, Value)>, n: nat, depth: nat, s: State)
    requires n < |fields|
    ensures Exec(heap, ObjectTasks(heap, fields, n + 1, depth), s) ==
              Exec(heap, FieldTasks(heap, fields[n].0, fields[n].1, depth),
                   Exec(heap, ObjectTasks(heap, fields, n, depth), s))
  {
    ExecConcat(heap, ObjectTasks(heap, fields, n, depth), FieldTasks(heap, fields[n].0, fields[n].1, depth), s);
  }

  ghost predicate SlotsInHeap(heap: Heap, cell: Cell) {
    forall i :: 0 <= i < SlotCount(cell) ==> InHeap(heap, Slot(cell, i))
  }

  // ----- the traversal -----

  class Collector {
    const heap: Heap
    var out: seq<Symbolish>
    var seen: set<Addr>
    ghost var visit: Visit

    ghost predicate Valid()
      reads this
    {
      ValidHeap(heap) && seen == visit.at.Keys
    }

    ghost function Now(): State
      reads this
    {
      State(out, visit)
    }

    constructor (heap: Heap)
      requires ValidHeap(heap)
      ensures Valid() && this.heap == heap && Now() == START
    {
      this.heap := heap;
      out, seen, visit := [], {}, Visit([], map[]);
    }

    method Collect(v: Value, depth: nat)
      requires Valid() && InHeap(heap, v)
      modifies this
      ensures Valid() && old(seen) <= seen
      ensures Now() == Exec(heap, [Follow(v, depth)], old(Now()))
      decreases heap.Keys - seen, 0
    {
      ExecFollow(heap, v, depth, Now());
      if !v.Ref? || v.addr in seen {
        return;
      }
      seen := seen + {v.addr};
      visit := Marked(visit, v.addr, depth);
      var cell := heap[v.addr];
      assert SlotsInHeap(heap, cell);
      if cell.Arr? {
        VisitArray(cell, depth);
      } else {
        VisitObject(cell, depth);
      }
    }

    method Emit(v: Value, depth: nat)
      modifies this`out
      ensures Now() == Exec(heap, [Offer(v, depth)], old(Now()))
    {
      ExecOffer(heap, v, depth, Now());
      var sym := SymbolFromValue(heap, v, Some(depth));
      if sym.Some? {
        out := out + [sym.value];
      }
    }

    method VisitArray(cell: Cell, depth: nat)
      requires Valid() && cell.Arr? && SlotsInHeap(heap, cell)
      modifies this
      ensures Valid() && old(seen) <= seen
      ensures Now() == Exec(heap, CellTasks(heap, cell, depth), old(Now()))
      decreases heap.Keys - seen, 1
    {
      for i := 0 to |cell.items|
        invariant Valid() && old(seen) <= seen
        invariant Now() == Exec(heap, ItemTasks(cell.items, i, depth), old(Now()))
      {
        assert InHeap(heap, Slot(cell, i));
        ghost var offer, follow := [Offer(cell.items[i], depth)], [Follow(cell.items[i], depth)];
        assert offer + follow == [Offer(cell.items[i], depth), Follow(cell.items[i], depth)];
        ExecConcat(heap, ItemTasks(cell.items, i, depth), offer + follow, old(Now()));
        ExecConcat(heap, offer, follow, Now());
        Emit(cell.items[i], depth);
        Collect(cell.items[i], depth);
      }
    }

    // Object.entries(child) of a `by_depth` child: its values are followed, it is not marked.
    method VisitLayers(child: Cell, depth: nat)
      requires Valid() && SlotsInHeap(heap, child)
      modifies this
      ensures Valid() && old(seen) <= seen
      ensures Now() == Exec(heap, LayerTasks(child, SlotCount(child), depth), old(Now()))
      decreases heap.Keys - seen, 1
    {
      for i := 0 to SlotCount(child)
        invariant Valid() && old(seen) <= seen
        invariant Now() == Exec(heap, LayerTasks(child, i, depth), old(Now()))
      {
        var layer := Layer(child, i, depth);
        ExecConcat(heap, LayerTasks(child, i, depth), [Follow(Slot(child, i), layer)], old(Now()));
        Collect(Slot(child, i), layer);
      }
    }

    // One field of an object.
    method VisitField(key: string, child: Value, depth: nat)
      requires Valid() && InHeap(heap, child)
      modifies this
      ensures Valid() && old(seen) <= seen
      ensures Now() == Exec(heap, FieldTasks(heap, key, child, depth), old(Now()))
      decreases heap.Keys - seen, 2
    {
      if Skipped(key) {
        return;
      }
      ghost var offer := if NamesSymbol(key) then [Offer(child, 0)] else [];
      ghost var follow := FieldTasks(heap, key, child, depth)[|offer|..];
      assert FieldTasks(heap, key, child, depth) == offer + follow;
      ExecConcat(heap, offer, follow, Now());
      if NamesSymbol(key) {
        Emit(child, 0);
      }
      if key == "by_depth" && child.Ref? {
        assert SlotsInHeap(heap, heap[child.addr]);
        VisitLayers(heap[child.addr], depth);
      } else {
        // the listed container keys and all others are followed alike
        Collect(child, depth);
      }
    }

    // The first depth key of an object is visited ahead of its other fields.
    method VisitDepthLayer(cell: Cell, depth: nat)
      requires Valid() && cell.Obj? && SlotsInHeap(heap, cell)
      modifies this
      ensures Valid() && old(seen) <= seen
      ensures Now() == Exec(heap, EarlyTasks(cell.fields, depth), old(Now()))
      decreases heap.Keys - seen, 1
    {
      var d := FirstDepthField(cell.fields, 0);
      if d < |cell.fields| && cell.fields[d].0 != "by_depth" {
        assert InHeap(heap, Slot(cell, d));
        Collect(cell.fields[d].1, FirstNumber(cell.fields[d].0).GetOr(depth + 1));
      }
    }

    method VisitObject(cell: Cell, depth: nat)
      requires Valid() && cell.Obj? && SlotsInHeap(heap, cell)
      modifies this
      ensures Valid() && old(seen) <= seen
      ensures Now() == Exec(heap, CellTasks(heap, cell, depth), old(Now()))
      decreases heap.Keys - seen, 4
    {
      ExecConcat(heap, EarlyTasks(cell.fields, depth), ObjectTasks(heap, cell.fields, |cell.fields|, depth), Now());
      VisitDepthLayer(cell, depth);
      VisitFields(cell, depth);
    }

    // The loop over the fields.
    method VisitFields(cell: Cell, depth: nat)
      requires Valid() && cell.Obj? && SlotsInHeap(heap, cell)
      modifies this
      ensures Valid() && old(seen) <= seen
      ensures Now() == Exec(heap, ObjectTasks(heap, cell.fields, |cell.fields|, depth), old(Now()))
      decreases heap.Keys - seen, 3
    {
      for i := 0 to |cell.fields|
        invariant Valid() && old(seen) <= seen
        invariant Now() == Exec(heap, ObjectTasks(heap, cell.fields, i, depth), old(Now()))
      {
        assert InHeap(heap, Slot(cell, i));
        FieldStep(heap, cell.fields, i, depth, old(Now()));
        VisitField(cell.fields[i].0, cell.fields[i].1, depth);
      }
    }
  }

  // collectSymbolish from the outside: it ends on every finite heap, cyclic or not, with what the
  // tasks give.
  method CollectSymbolish(heap: Heap, v: Value) returns (out: seq<Symbolish>)
    requires ValidHeap(heap) && InHeap(heap, v)
    ensures out == Collected(heap, v).out
  {
    var collector := new Collector(heap);
    collector.Collect(v, 0);
    out := collector.out;
  }

  ghost function Collected(heap: Heap, v: Value): State {
    Exec(heap, [Follow(v, 0)], START)
  }

  // ----- the tasks of a cell -----

  // For an array, item by item.
  lemma ArrayTasksExactly(heap: Heap, items: seq<Value>, depth: nat, i: nat)
    requires i < |items|
    ensures var tasks := CellTasks(heap, Arr(items), depth);
      && |tasks| == 2 * |items|
      && tasks[2 * i] == Offer(items[i], depth)
      && tasks[2 * i + 1] == Follow(items[i], depth)
  {
    ItemTasksAt(items, |items|, depth);
  }

  lemma {:induction false} ItemTasksAt(items: seq<Value>, n: nat, depth: nat)
    requires n <= |items|
    ensures |ItemTasks(items, n, depth)| == 2 * n
    ensures forall i :: 0 <= i < n ==>
              && ItemTasks(items, n, depth)[2 * i] == Offer(items[i], depth)
              && ItemTasks(items, n, depth)[2 * i + 1] == Follow(items[i], depth)
  {
    if n > 0 {
      ItemTasksAt(items, n - 1, depth);
    }
  }

  // For an object: what its first depth key holds, at the number of the key; then field by field.
  lemma ObjectTasksExactly(heap: Heap, fields: seq<(string, Value)>, depth: nat)
    ensures forall i: nat, e: nat :: FirstDepthKey(fields, i) && FirstNumber(fields[i].0) == Some(e) ==>
              CellTasks(heap, Obj(fields), depth) ==
                [Follow(fields[i].1, e)] + ObjectTasks(heap, fields, |fields|, depth)
    ensures (forall i: nat :: !FirstDepthKey(fields, i)) ==>
              CellTasks(heap, Obj(fields), depth) == ObjectTasks(heap, fields, |fields|, depth)
  {
    forall i: nat | FirstDepthKey(fields, i)
      ensures FirstDepthField(fields, 0) == i && fields[i].0 != "by_depth"
    {
      FirstIsFound(fields, i);
    }
    var d := FirstDepthField(fields, 0);
    if d < |fields| && fields[d].0 != "by_depth" {
      assert FirstDepthKey(fields, d);
    } else {
      assert [] + ObjectTasks(heap, fields, |fields|, depth) == ObjectTasks(heap, fields, |fields|, depth);
    }
  }

  lemma FieldTasksExactly(heap: Heap, key: string, v: Value, depth: nat)
    ensures var tasks := FieldTasks(heap, key, v, depth);
      if key in ["summary", "meta", "stats", "schema"] then tasks == []
      else if key in ["symbol", "target", "source"] then tasks == [Offer(v, 0), Follow(v, depth)]
      else if key == "by_depth" && v.Ref? && v.addr in heap then
        tasks == LayerTasks(heap[v.addr], SlotCount(heap[v.addr]), depth)
      else tasks == [Follow(v, depth)]
  {
  }

  lemma FieldByField(heap: Heap, fields: seq<(string, Value)>, n: nat, depth: nat)
    requires n < |fields|
    ensures ObjectTasks(heap, fields, 0, depth) == []
    ensures ObjectTasks(heap, fields, n + 1, depth) ==
              ObjectTasks(heap, fields, n, depth) + FieldTasks(heap, fields[n].0, fields[n].1, depth)
  {
  }

  // The entries of a by_depth child, in order: an array's at their index, an object's at the number
  // in their key, else one deeper.
  lemma {:induction false} LayerTasksExactly(child: Cell, n: nat, depth: nat)
    requires n <= SlotCount(child)
    ensures |LayerTasks(child, n, depth)| == n
    ensures forall i :: 0 <= i < n ==>
              if child.Arr? then LayerTasks(child, n, depth)[i] == Follow(child.items[i], i)
              else
                var number := FirstNumber(child.fields[i].0);
                LayerTasks(child, n, depth)[i] ==
                  Follow(child.fields[i].1, if number.Some? then number.value else depth + 1)
  {
    if n > 0 {
      LayerTasksExactly(child, n - 1, depth);
    }
  }
}
