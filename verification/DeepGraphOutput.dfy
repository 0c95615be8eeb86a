/**
 * What the traversal of the deep graph answer outputs: which cells it expands, at which depths, and
 * which symbols come out how often.
 */
module DeepGraphOutput {
  import opened Options
  import opened Reachability
  import opened SymbolReader
  import opened DeepGraph

  // ----- the order and the depths -----

  // The cells with a depth are those in the order, each once.
  ghost predicate EachOnce(heap: Heap, visit: Visit) {
    && (forall a :: a in visit.at <==> a in visit.order)
    && visit.at.Keys <= heap.Keys
    && forall i, j :: 0 <= i < j < |visit.order| ==> visit.order[i] != visit.order[j]
  }

  // One of the first n expanded cells leads to the cell at that depth.
  ghost predicate LedTo(heap: Heap, visit: Visit, n: nat, b: Addr, e: nat) {
    exists q ::
      && 0 <= q < n && q < |visit.order| && visit.order[q] in visit.at
      && LeadsAt(heap, visit.order[q], visit.at[visit.order[q]], b, e)
  }

  // Every cell after the first got its depth from a cell before it.
  ghost predicate AllParents(heap: Heap, visit: Visit) {
    forall k :: 0 < k < |visit.order| ==>
      visit.order[k] in visit.at && LedTo(heap, visit, k, visit.order[k], visit.at[visit.order[k]])
  }

  // What an object holds under its first depth key is expanded right after the object, at the
  // depth the key says, unless it was before.
  ghost predicate Early(heap: Heap, visit: Visit, k: nat) {
    k < |visit.order| && visit.order[k] in heap && heap[visit.order[k]].Obj? ==>
      var fields := heap[visit.order[k]].fields;
      forall i: nat, c: Addr :: FirstDepthKey(fields, i) && fields[i].1 == Ref(c) ==>
        || c in visit.order[..k + 1]
        || (&& k + 1 < |visit.order| && visit.order[k + 1] == c
            && c in visit.at && Some(visit.at[c]) == FirstNumber(fields[i].0))
  }

  // The starting point is expanded first, at depth 0; the expanded cells are the reachable ones.
  ghost predicate Traversal(heap: Heap, v: Value, s: State) {
    && EachOnce(heap, s.visit)
    && (forall a :: a in s.visit.order <==> Visits(heap, v, a))
    && (v.Ref? ==> s.visit.order != [] && s.visit.order[0] == v.addr && s.visit.at[v.addr] == 0)
    && AllParents(heap, s.visit)
    && (forall k :: 0 <= k < |s.visit.order| ==> Early(heap, s.visit, k))
    && forall watched: Symbolish -> bool :: Count(s.out, watched) == Total(heap, s.visit.order, s.visit.at, watched)
  }

  // ----- counting -----

  // What a slot is output as, when its cell is expanded at depth d: naming fields get depth 0.
  ghost function SlotSymbol(heap: Heap, cell: Cell, i: nat, d: nat): Option<Symbolish>
    requires i < SlotCount(cell)
  {
    if cell.Arr? then SymbolFromValue(heap, Slot(cell, i), Some(d))
    else if NamesSymbol(cell.fields[i].0) then SymbolFromValue(heap, Slot(cell, i), Some(0))
    else None
  }

  ghost function One(sym: Option<Symbolish>, watched: Symbolish -> bool): nat {
    if sym.Some? && watched(sym.value) then 1 else 0
  }

  // How many symbols the first n slots contribute, counting only those that are `watched`.
  ghost function CellContribution(heap: Heap, cell: Cell, n: nat, d: nat, watched: Symbolish -> bool): nat
    requires n <= SlotCount(cell)
  {
    if n == 0 then 0
    else CellContribution(heap, cell, n - 1, d, watched) + One(SlotSymbol(heap, cell, n - 1, d), watched)
  }

  ghost function AddrContribution(heap: Heap, a: Addr, at: map<Addr, nat>, watched: Symbolish -> bool): nat {
    if a in heap && a in at then CellContribution(heap, heap[a], SlotCount(heap[a]), at[a], watched) else 0
  }

  ghost function Total(heap: Heap, addrs: seq<Addr>, at: map<Addr, nat>, watched: Symbolish -> bool): nat {
    if addrs == [] then 0
    else Total(heap, addrs[..|addrs| - 1], at, watched) + AddrContribution(heap, addrs[|addrs| - 1], at, watched)
  }

  ghost function Count(out: seq<Symbolish>, watched: Symbolish -> bool): nat {
    if out == [] then 0 else Count(out[..|out| - 1], watched) + if watched(out[|out| - 1]) then 1 else 0
  }

  // How many symbols the tasks still offer.
  ghost function Offers(heap: Heap, tasks: seq<Task>, watched: Symbolish -> bool): nat {
    if tasks == [] then 0
    else
      (if tasks[0].Offer? then One(SymbolFromValue(heap, tasks[0].v, Some(tasks[0].depth)), watched) else 0)
      + Offers(heap, tasks[1..], watched)
  }

  lemma {:induction false} OffersConcat(heap: Heap, a: seq<Task>, b: seq<Task>, watched: Symbolish -> bool)
    ensures Offers(heap, a + b, watched) == Offers(heap, a, watched) + Offers(heap, b, watched)
  {
    if a == [] {
      assert a + b == b;
    } else {
      assert (a + b)[1..] == a[1..] + b;
      OffersConcat(heap, a[1..], b, watched);
    }
  }

  lemma OffersOne(heap: Heap, task: Task, watched: Symbolish -> bool)
    ensures Offers(heap, [task], watched) ==
              if task.Offer? then One(SymbolFromValue(heap, task.v, Some(task.depth)), watched) else 0
  {
    assert [task][1..] == [];
  }

  lemma {:induction false} OffersOfItems(heap: Heap, items: seq<Value>, n: nat, d: nat, watched: Symbolish -> bool)
    requires n <= |items|
    ensures Offers(heap, ItemTasks(items, n, d), watched) == CellContribution(heap, Arr(items), n, d, watched)
  {
    if n > 0 {
      var offer, follow := Offer(items[n - 1], d), Follow(items[n - 1], d);
      OffersOfItems(heap, items, n - 1, d, watched);
      assert [offer] + [follow] == [offer, follow];
      OffersConcat(heap, ItemTasks(items, n - 1, d), [offer, follow], watched);
      OffersConcat(heap, [offer], [follow], watched);
      OffersOne(heap, offer, watched);
      OffersOne(heap, follow, watched);
    }
  }

  lemma {:induction false} LayersOfferNothing(heap: Heap, child: Cell, n: nat, d: nat, watched: Symbolish -> bool)
    requires n <= SlotCount(child)
    ensures Offers(heap, LayerTasks(child, n, d), watched) == 0
  {
    if n > 0 {
      var follow := Follow(Slot(child, n - 1), Layer(child, n - 1, d));
      LayersOfferNothing(heap, child, n - 1, d, watched);
      OffersConcat(heap, LayerTasks(child, n - 1, d), [follow], watched);
      OffersOne(heap, follow, watched);
    }
  }

  lemma OffersOfField(heap: Heap, key: string, v: Value, d: nat, watched: Symbolish -> bool)
    ensures Offers(heap, FieldTasks(heap, key, v, d), watched) ==
              if NamesSymbol(key) then One(SymbolFromValue(heap, v, Some(0)), watched) else 0
  {
    OffersOne(heap, Offer(v, 0), watched);
    OffersOne(heap, Follow(v, d), watched);
    var first := if NamesSymbol(key) then [Offer(v, 0)] else [];
    if key == "by_depth" && v.Ref? && v.addr in heap {
      LayersOfferNothing(heap, heap[v.addr], SlotCount(heap[v.addr]), d, watched);
      OffersConcat(heap, first, LayerTasks(heap[v.addr], SlotCount(heap[v.addr]), d), watched);
    } else {
      OffersConcat(heap, first, [Follow(v, d)], watched);
    }
  }

  lemma {:induction false} OffersOfFields(heap: Heap, fields: seq<(string, Value)>, n: nat, d: nat,
                                          watched: Symbolish -> bool)
    requires n <= |fields|
    ensures Offers(heap, ObjectTasks(heap, fields, n, d), watched) == CellContribution(heap, Obj(fields), n, d, watched)
  {
    if n > 0 {
      var key, v := fields[n - 1].0, fields[n - 1].1;
      OffersOfFields(heap, fields, n - 1, d, watched);
      OffersConcat(heap, ObjectTasks(heap, fields, n - 1, d), FieldTasks(heap, key, v, d), watched);
      OffersOfField(heap, key, v, d, watched);
    }
  }

  lemma OffersOfCell(heap: Heap, cell: Cell, d: nat, watched: Symbolish -> bool)
    ensures Offers(heap, CellTasks(heap, cell, d), watched) == CellContribution(heap, cell, SlotCount(cell), d, watched)
  {
    match cell
    case Arr(items) => OffersOfItems(heap, items, |items|, d, watched);
    case Obj(fields) =>
      OffersOfFields(heap, fields, |fields|, d, watched);
      OffersConcat(heap, EarlyTasks(fields, d), ObjectTasks(heap, fields, |fields|, d), watched);
      if EarlyTasks(fields, d) != [] {
        OffersOne(heap, EarlyTasks(fields, d)[0], watched);
      }
  }

  // ----- what the tasks of a cell follow -----

  ghost predicate Pending(tasks: seq<Task>, b: Addr) {
    exists t :: t in tasks && t.Follow? && t.v == Ref(b)
  }

  lemma PendingConcat(a: seq<Task>, b: seq<Task>, addr: Addr)
    ensures Pending(a + b, addr) <==> Pending(a, addr) || Pending(b, addr)
  {
    if t :| t in a && t.Follow? && t.v == Ref(addr) {
      assert t in a + b;
    }
    if t :| t in b && t.Follow? && t.v == Ref(addr) {
      assert t in a + b;
    }
  }

  lemma {:induction false} ObjectFollows(heap: Heap, fields: seq<(string, Value)>, n: nat, d: nat, b: Addr)
    requires n <= |fields|
    ensures (exists i :: 0 <= i < n && FieldLeads(heap, fields[i].0, fields[i].1, b)) ==>
              Pending(ObjectTasks(heap, fields, n, d), b)
  {
    if n > 0 {
      var key, v := fields[n - 1].0, fields[n - 1].1;
      ObjectFollows(heap, fields, n - 1, d, b);
      PendingConcat(ObjectTasks(heap, fields, n - 1, d), FieldTasks(heap, key, v, d), b);
      if FieldLeads(heap, key, v, b) {
        FieldFollows(heap, key, v, d, b);
      }
    }
  }

  lemma FieldFollows(heap: Heap, key: string, v: Value, d: nat, b: Addr)
    requires FieldLeads(heap, key, v, b)
    ensures Pending(FieldTasks(heap, key, v, d), b)
  {
    var tasks := FieldTasks(heap, key, v, d);
    if key == "by_depth" {
      var child := heap[v.addr];
      var i :| 0 <= i < SlotCount(child) && Slot(child, i) == Ref(b);
      LayerTasksExactly(child, SlotCount(child), d);
      assert LayerTasks(child, SlotCount(child), d)[i] in LayerTasks(child, SlotCount(child), d);
      assert !NamesSymbol(key) && tasks == LayerTasks(child, SlotCount(child), d);
    } else {
      assert Follow(v, d) in tasks;
    }
  }

  lemma CellFollows(heap: Heap, a: Addr, d: nat, b: Addr)
    requires Leads(heap)(a, b)
    ensures Pending(CellTasks(heap, heap[a], d), b)
  {
    match heap[a]
    case Arr(items) =>
      var i :| 0 <= i < |items| && items[i] == Ref(b);
      ArrayTasksExactly(heap, items, d, i);
      assert Follow(items[i], d) in CellTasks(heap, heap[a], d);
    case Obj(fields) =>
      ObjectFollows(heap, fields, |fields|, d, b);
      PendingConcat(EarlyTasks(fields, d), ObjectTasks(heap, fields, |fields|, d), b);
  }

  // Every cell the tasks follow is led to, at that depth.
  ghost predicate OnlyLeads(heap: Heap, a: Addr, d: nat, tasks: seq<Task>) {
    forall t :: t in tasks && t.Follow? && t.v.Ref? ==> LeadsAt(heap, a, d, t.v.addr, t.depth)
  }

  lemma OnlyLeadsConcat(heap: Heap, a: Addr, d: nat, s: seq<Task>, t: seq<Task>)
    requires OnlyLeads(heap, a, d, s) && OnlyLeads(heap, a, d, t)
    ensures OnlyLeads(heap, a, d, s + t)
  {
  }

  lemma FieldOnlyLeads(heap: Heap, a: Addr, d: nat, n: nat)
    requires ValidHeap(heap) && a in heap && heap[a].Obj? && n < |heap[a].fields|
    ensures OnlyLeads(heap, a, d, FieldTasks(heap, heap[a].fields[n].0, heap[a].fields[n].1, d))
  {
    var fields := heap[a].fields;
    var key, v := fields[n].0, fields[n].1;
    var tasks := FieldTasks(heap, key, v, d);
    if key == "by_depth" && v.Ref? && v.addr in heap {
      var child := heap[v.addr];
      LayerTasksExactly(child, SlotCount(child), d);
      assert tasks == LayerTasks(child, SlotCount(child), d);
      forall t | t in tasks && t.v.Ref?
        ensures LeadsAt(heap, a, d, t.v.addr, t.depth)
      {
        assert LayerHolds(child, d, t.v.addr, t.depth);
        assert FieldLeadsAt(heap, fields, n, d, t.v.addr, t.depth);
      }
    } else if !Skipped(key) && v.Ref? {
      assert InHeap(heap, Slot(heap[a], n));
      assert FieldLeadsAt(heap, fields, n, d, v.addr, d);
    }
  }

  lemma {:induction false} TaskOfField(heap: Heap, fields: seq<(string, Value)>, n: nat, d: nat, t: Task)
    returns (m: nat)
    requires n <= |fields| && t in ObjectTasks(heap, fields, n, d)
    ensures m < n && t in FieldTasks(heap, fields[m].0, fields[m].1, d)
  {
    if t in FieldTasks(heap, fields[n - 1].0, fields[n - 1].1, d) {
      m := n - 1;
    } else {
      m := TaskOfField(heap, fields, n - 1, d, t);
    }
  }

  lemma FieldsOnlyLead(heap: Heap, a: Addr, d: nat)
    requires ValidHeap(heap) && a in heap && heap[a].Obj?
    ensures OnlyLeads(heap, a, d, ObjectTasks(heap, heap[a].fields, |heap[a].fields|, d))
  {
    var fields := heap[a].fields;
    forall t | t in ObjectTasks(heap, fields, |fields|, d) && t.Follow? && t.v.Ref?
      ensures LeadsAt(heap, a, d, t.v.addr, t.depth)
    {
      var m := TaskOfField(heap, fields, |fields|, d, t);
      FieldOnlyLeads(heap, a, d, m);
    }
  }

  lemma CellOnlyLeads(heap: Heap, a: Addr, d: nat)
    requires ValidHeap(heap) && a in heap
    ensures OnlyLeads(heap, a, d, CellTasks(heap, heap[a], d))
  {
    match heap[a]
    case Arr(items) =>
      ItemTasksAt(items, |items|, d);
      var tasks := CellTasks(heap, heap[a], d);
      forall t | t in tasks && t.Follow? && t.v.Ref?
        ensures LeadsAt(heap, a, d, t.v.addr, t.depth)
      {
        var i :| 0 <= i < |tasks| && tasks[i] == t;
        assert i == 2 * (i / 2) || i == 2 * (i / 2) + 1;
        assert tasks[i].v == items[i / 2];
      }
    case Obj(fields) =>
      FieldsOnlyLead(heap, a, d);
      EarlyOnlyLeads(heap, a, d);
      OnlyLeadsConcat(heap, a, d, EarlyTasks(fields, d), ObjectTasks(heap, fields, |fields|, d));
  }

  lemma EarlyOnlyLeads(heap: Heap, a: Addr, d: nat)
    requires a in heap && heap[a].Obj?
    ensures OnlyLeads(heap, a, d, EarlyTasks(heap[a].fields, d))
  {
    var fields := heap[a].fields;
    var i := FirstDepthField(fields, 0);
    if i < |fields| && fields[i].0 != "by_depth" && fields[i].1.Ref? {
      FirstIsFound(fields, i);
      assert FieldLeadsAt(heap, fields, i, d, fields[i].1.addr, EarlyTasks(fields, d)[0].depth);
    }
  }

  // ----- what every step of the tasks keeps -----

  ghost predicate AllDue(heap: Heap, tasks: seq<Task>, visit: Visit) {
    forall t :: t in tasks && t.Follow? && t.v.Ref? ==> LedTo(heap, visit, |visit.order|, t.v.addr, t.depth)
  }

  ghost predicate Covered(heap: Heap, tasks: seq<Task>, visit: Visit) {
    forall a, b :: a in visit.at && Leads(heap)(a, b) ==> b in visit.at || Pending(tasks, b)
  }

  // The next task is to follow what the object holds under its first depth key.
  ghost predicate EarlyNext(heap: Heap, tasks: seq<Task>, a: Addr) {
    a in heap && heap[a].Obj? && tasks != [] &&
    exists i: nat :: FirstDepthKey(heap[a].fields, i) &&
      tasks[0] == Follow(heap[a].fields[i].1, FirstNumber(heap[a].fields[i].0).GetOr(0))
  }

  ghost predicate EarlyOrNext(heap: Heap, tasks: seq<Task>, visit: Visit) {
    forall k :: 0 <= k < |visit.order| ==>
      Early(heap, visit, k) || (k == |visit.order| - 1 && EarlyNext(heap, tasks, visit.order[k]))
  }

  ghost predicate Balanced(heap: Heap, tasks: seq<Task>, s: State, watched: Symbolish -> bool) {
    Count(s.out, watched) + Offers(heap, tasks, watched) == Total(heap, s.visit.order, s.visit.at, watched)
  }

  ghost predicate AllBalanced(heap: Heap, tasks: seq<Task>, s: State) {
    forall watched :: Balanced(heap, tasks, s, watched)
  }

  ghost predicate Inv(heap: Heap, tasks: seq<Task>, s: State) {
    && ValidHeap(heap)
    && EachOnce(heap, s.visit)
    && AllParents(heap, s.visit) && AllDue(heap, tasks, s.visit)
    && Covered(heap, tasks, s.visit)
    && EarlyOrNext(heap, tasks, s.visit)
    && AllBalanced(heap, tasks, s)
  }

  lemma SkipKeepsInv(heap: Heap, tasks: seq<Task>, s: State)
    requires Inv(heap, tasks, s) && tasks != [] && tasks[0].Follow? && !Fresh(heap, s.visit, tasks[0].v)
    ensures Inv(heap, tasks[1..], s)
  {
    LessIsDue(heap, tasks, s.visit);
    SkipCovers(heap, tasks, s.visit);
    SkipIsEarly(heap, tasks, s.visit);
    forall watched
      ensures Balanced(heap, tasks[1..], s, watched)
    {
      assert Balanced(heap, tasks, s, watched);
    }
  }

  lemma SkipCovers(heap: Heap, tasks: seq<Task>, visit: Visit)
    requires ValidHeap(heap) && Covered(heap, tasks, visit)
    requires tasks != [] && tasks[0].Follow? && !Fresh(heap, visit, tasks[0].v)
    ensures Covered(heap, tasks[1..], visit)
  {
    assert tasks == [tasks[0]] + tasks[1..];
    forall a, b | a in visit.at && Leads(heap)(a, b)
      ensures b in visit.at || Pending(tasks[1..], b)
    {
      LeadsInside(heap, a, b);
      PendingConcat([tasks[0]], tasks[1..], b);
    }
  }

  lemma SkipIsEarly(heap: Heap, tasks: seq<Task>, visit: Visit)
    requires ValidHeap(heap) && EachOnce(heap, visit) && EarlyOrNext(heap, tasks, visit)
    requires tasks != [] && tasks[0].Follow? && !Fresh(heap, visit, tasks[0].v)
    ensures EarlyOrNext(heap, tasks[1..], visit)
  {
    forall k | 0 <= k < |visit.order|
      ensures Early(heap, visit, k)
    {
      if k == |visit.order| - 1 && EarlyNext(heap, tasks, visit.order[k]) {
        EarlyIsThere(heap, tasks, visit);
      }
    }
  }

  lemma LessIsDue(heap: Heap, tasks: seq<Task>, visit: Visit)
    requires tasks != [] && AllDue(heap, tasks, visit)
    ensures AllDue(heap, tasks[1..], visit)
  {
    assert tasks == [tasks[0]] + tasks[1..];
  }

  lemma LeadsInside(heap: Heap, a: Addr, b: Addr)
    requires ValidHeap(heap) && Leads(heap)(a, b)
    ensures b in heap
  {
    if heap[a].Arr? {
      var i :| 0 <= i < |heap[a].items| && heap[a].items[i] == Ref(b);
      assert InHeap(heap, Slot(heap[a], i));
    } else {
      var fields := heap[a].fields;
      var i :| 0 <= i < |fields| && FieldLeads(heap, fields[i].0, fields[i].1, b);
      assert InHeap(heap, Slot(heap[a], i));
      if fields[i].0 == "by_depth" {
        var child := heap[fields[i].1.addr];
        var j :| 0 <= j < SlotCount(child) && Slot(child, j) == Ref(b);
        assert InHeap(heap, Slot(child, j));
      }
    }
  }

  // Where the early task has nothing new to expand, its cell was expanded before.
  lemma EarlyIsThere(heap: Heap, tasks: seq<Task>, visit: Visit)
    requires ValidHeap(heap) && EachOnce(heap, visit) && visit.order != []
    requires EarlyNext(heap, tasks, visit.order[|visit.order| - 1]) && !Fresh(heap, visit, tasks[0].v)
    ensures Early(heap, visit, |visit.order| - 1)
  {
    var k := |visit.order| - 1;
    var fields := heap[visit.order[k]].fields;
    assert visit.order[..k + 1] == visit.order;
    OneFirstDepthKey(fields);
    var j: nat :| FirstDepthKey(fields, j) && tasks[0].v == fields[j].1;
    assert InHeap(heap, Slot(heap[visit.order[k]], j));
    forall i: nat, c: Addr | FirstDepthKey(fields, i) && fields[i].1 == Ref(c)
      ensures c in visit.order[..k + 1]
    {
      assert i == j && c in visit.at;
    }
  }

  lemma OneFirstDepthKey(fields: seq<(string, Value)>)
    ensures forall i: nat, j: nat :: FirstDepthKey(fields, i) && FirstDepthKey(fields, j) ==> i == j
  {
  }

  lemma OfferKeepsInv(heap: Heap, tasks: seq<Task>, s: State)
    requires Inv(heap, tasks, s) && tasks != [] && tasks[0].Offer?
    ensures Inv(heap, tasks[1..], Emitted(heap, s, tasks[0].v, tasks[0].depth))
  {
    LessIsDue(heap, tasks, s.visit);
    OfferCovers(heap, tasks, s.visit);
    OfferBalances(heap, tasks, s);
  }

  lemma OfferCovers(heap: Heap, tasks: seq<Task>, visit: Visit)
    requires Covered(heap, tasks, visit) && tasks != [] && tasks[0].Offer?
    ensures Covered(heap, tasks[1..], visit)
  {
    assert tasks == [tasks[0]] + tasks[1..];
    forall a, b | a in visit.at && Leads(heap)(a, b)
      ensures b in visit.at || Pending(tasks[1..], b)
    {
      PendingConcat([tasks[0]], tasks[1..], b);
    }
  }

  lemma OfferBalance(heap: Heap, tasks: seq<Task>, s: State, watched: Symbolish -> bool)
    requires Balanced(heap, tasks, s, watched) && tasks != [] && tasks[0].Offer?
    ensures Balanced(heap, tasks[1..], Emitted(heap, s, tasks[0].v, tasks[0].depth), watched)
  {
    var more := Emitted(heap, s, tasks[0].v, tasks[0].depth);
    assert more.out != s.out ==> more.out[..|more.out| - 1] == s.out;
  }

  lemma OfferBalances(heap: Heap, tasks: seq<Task>, s: State)
    requires AllBalanced(heap, tasks, s) && tasks != [] && tasks[0].Offer?
    ensures AllBalanced(heap, tasks[1..], Emitted(heap, s, tasks[0].v, tasks[0].depth))
  {
    forall watched
      ensures Balanced(heap, tasks[1..], Emitted(heap, s, tasks[0].v, tasks[0].depth), watched)
    {
      assert Balanced(heap, tasks, s, watched);
      OfferBalance(heap, tasks, s, watched);
    }
  }

  lemma MarkedOnce(heap: Heap, visit: Visit, a: Addr, depth: nat)
    requires EachOnce(heap, visit) && a in heap && a !in visit.at
    ensures EachOnce(heap, Marked(visit, a, depth))
  {
  }

  // More expanded cells lead to no less.
  lemma MarkedLeads(heap: Heap, visit: Visit, a: Addr, depth: nat, n: nat, b: Addr, e: nat)
    requires LedTo(heap, visit, n, b, e) && a !in visit.at
    ensures LedTo(heap, Marked(visit, a, depth), n, b, e)
  {
    var q :| && 0 <= q < n && q < |visit.order| && visit.order[q] in visit.at
             && LeadsAt(heap, visit.order[q], visit.at[visit.order[q]], b, e);
    assert Marked(visit, a, depth).order[q] == visit.order[q];
  }

  lemma MarkedParents(heap: Heap, visit: Visit, a: Addr, depth: nat)
    requires AllParents(heap, visit) && a !in visit.at && LedTo(heap, visit, |visit.order|, a, depth)
    ensures AllParents(heap, Marked(visit, a, depth))
  {
    var more := Marked(visit, a, depth);
    forall k | 0 < k < |more.order|
      ensures more.order[k] in more.at && LedTo(heap, more, k, more.order[k], more.at[more.order[k]])
    {
      if k < |visit.order| {
        assert more.order[k] == visit.order[k];
        MarkedLeads(heap, visit, a, depth, k, more.order[k], more.at[more.order[k]]);
      } else {
        MarkedLeads(heap, visit, a, depth, k, a, depth);
      }
    }
  }

  lemma MarkedDue(heap: Heap, visit: Visit, tasks: seq<Task>, a: Addr, depth: nat)
    requires ValidHeap(heap) && a in heap && a !in visit.at && AllDue(heap, tasks, visit)
    ensures AllDue(heap, CellTasks(heap, heap[a], depth) + tasks, Marked(visit, a, depth))
  {
    var more, first := Marked(visit, a, depth), CellTasks(heap, heap[a], depth);
    CellOnlyLeads(heap, a, depth);
    OnlyLeadsAreDue(heap, visit, first, a, depth);
    forall t | t in tasks && t.Follow? && t.v.Ref?
      ensures LedTo(heap, more, |more.order|, t.v.addr, t.depth)
    {
      MarkedLeads(heap, visit, a, depth, |visit.order|, t.v.addr, t.depth);
      LedToMore(heap, more, |visit.order|, |more.order|, t.v.addr, t.depth);
    }
    DueTogether(heap, first, tasks, more);
  }

  lemma OnlyLeadsAreDue(heap: Heap, visit: Visit, tasks: seq<Task>, a: Addr, depth: nat)
    requires OnlyLeads(heap, a, depth, tasks)
    ensures AllDue(heap, tasks, Marked(visit, a, depth))
  {
    var more := Marked(visit, a, depth);
    forall t | t in tasks && t.Follow? && t.v.Ref?
      ensures LedTo(heap, more, |more.order|, t.v.addr, t.depth)
    {
      assert more.order[|visit.order|] == a && more.at[a] == depth;
    }
  }

  lemma LedToMore(heap: Heap, visit: Visit, n: nat, m: nat, b: Addr, e: nat)
    requires LedTo(heap, visit, n, b, e) && n <= m
    ensures LedTo(heap, visit, m, b, e)
  {
  }

  lemma DueTogether(heap: Heap, a: seq<Task>, b: seq<Task>, visit: Visit)
    requires AllDue(heap, a, visit) && AllDue(heap, b, visit)
    ensures AllDue(heap, a + b, visit)
  {
  }

  lemma MarkedEarly(heap: Heap, visit: Visit, tasks: seq<Task>, a: Addr, depth: nat)
    requires EarlyOrNext(heap, [Follow(Ref(a), depth)] + tasks, visit) && a in heap && a !in visit.at
    ensures EarlyOrNext(heap, CellTasks(heap, heap[a], depth) + tasks, Marked(visit, a, depth))
  {
    var more := Marked(visit, a, depth);
    forall k | 0 <= k < |visit.order|
      ensures Early(heap, more, k)
    {
      if Early(heap, visit, k) {
        EarlyStays(heap, visit, a, depth, k);
      } else {
        EarlyHappens(heap, visit, [Follow(Ref(a), depth)] + tasks, a, depth);
      }
    }
    EarlyComesFirst(heap, more, tasks, a, depth);
  }

  lemma EarlyStays(heap: Heap, visit: Visit, a: Addr, depth: nat, k: nat)
    requires Early(heap, visit, k) && k < |visit.order| && a !in visit.at
    ensures Early(heap, Marked(visit, a, depth), k)
  {
    var more := Marked(visit, a, depth);
    assert more.order[..k + 1] == visit.order[..k + 1] && more.order[k] == visit.order[k];
  }

  // The early task expands its cell.
  lemma EarlyHappens(heap: Heap, visit: Visit, tasks: seq<Task>, a: Addr, depth: nat)
    requires visit.order != [] && EarlyNext(heap, tasks, visit.order[|visit.order| - 1])
    requires tasks[0] == Follow(Ref(a), depth) && a in heap && a !in visit.at
    ensures Early(heap, Marked(visit, a, depth), |visit.order| - 1)
  {
    var k, more := |visit.order| - 1, Marked(visit, a, depth);
    var fields := heap[visit.order[k]].fields;
    assert more.order[k] == visit.order[k] && more.order[k + 1] == a;
    OneFirstDepthKey(fields);
    var j: nat :| FirstDepthKey(fields, j) && tasks[0] == Follow(fields[j].1, FirstNumber(fields[j].0).GetOr(0));
    FirstIsFound(fields, j);
    forall i: nat, c: Addr | FirstDepthKey(fields, i) && fields[i].1 == Ref(c)
      ensures c == a && Some(more.at[c]) == FirstNumber(fields[i].0)
    {
      assert i == j;
    }
  }

  lemma EarlyComesFirst(heap: Heap, visit: Visit, tasks: seq<Task>, a: Addr, depth: nat)
    requires a in heap && visit.order != [] && visit.order[|visit.order| - 1] == a
    ensures Early(heap, visit, |visit.order| - 1) || EarlyNext(heap, CellTasks(heap, heap[a], depth) + tasks, a)
  {
    if heap[a].Obj? {
      var fields := heap[a].fields;
      ObjectTasksExactly(heap, fields, depth);
      if i: nat :| FirstDepthKey(fields, i) {
        FirstIsFound(fields, i);
        var all := CellTasks(heap, heap[a], depth) + tasks;
        assert all[0] == Follow(fields[i].1, FirstNumber(fields[i].0).value);
        assert EarlyNext(heap, all, a);
      }
    }
  }

  lemma {:induction false} TotalSame(heap: Heap, addrs: seq<Addr>, at: map<Addr, nat>, more: map<Addr, nat>,
                                     watched: Symbolish -> bool)
    requires forall a :: a in addrs ==> a in at && a in more && at[a] == more[a]
    ensures Total(heap, addrs, at, watched) == Total(heap, addrs, more, watched)
  {
    if addrs != [] {
      TotalSame(heap, addrs[..|addrs| - 1], at, more, watched);
    }
  }

  lemma MarkedBalance(heap: Heap, s: State, tasks: seq<Task>, a: Addr, depth: nat, watched: Symbolish -> bool)
    requires EachOnce(heap, s.visit) && a in heap && a !in s.visit.at
    requires Balanced(heap, [Follow(Ref(a), depth)] + tasks, s, watched)
    ensures Balanced(heap, CellTasks(heap, heap[a], depth) + tasks, s.(visit := Marked(s.visit, a, depth)), watched)
  {
    var more := Marked(s.visit, a, depth);
    OffersConcat(heap, [Follow(Ref(a), depth)], tasks, watched);
    OffersOne(heap, Follow(Ref(a), depth), watched);
    OffersConcat(heap, CellTasks(heap, heap[a], depth), tasks, watched);
    OffersOfCell(heap, heap[a], depth, watched);
    TotalSame(heap, s.visit.order, s.visit.at, more.at, watched);
    assert more.order[..|more.order| - 1] == s.visit.order;
  }

  lemma ExpandKeepsPlaces(heap: Heap, tasks: seq<Task>, s: State, a: Addr, depth: nat)
    requires ValidHeap(heap) && EachOnce(heap, s.visit) && AllParents(heap, s.visit) && AllDue(heap, tasks, s.visit)
    requires tasks != [] && tasks[0] == Follow(Ref(a), depth)
    requires a in heap && a !in s.visit.at
    ensures EachOnce(heap, Marked(s.visit, a, depth)) && AllParents(heap, Marked(s.visit, a, depth))
    ensures AllDue(heap, CellTasks(heap, heap[a], depth) + tasks[1..], Marked(s.visit, a, depth))
  {
    MarkedOnce(heap, s.visit, a, depth);
    MarkedParents(heap, s.visit, a, depth);
    LessIsDue(heap, tasks, s.visit);
    MarkedDue(heap, s.visit, tasks[1..], a, depth);
  }

  lemma ExpandCovers(heap: Heap, tasks: seq<Task>, s: State, a: Addr, depth: nat)
    requires Covered(heap, tasks, s.visit) && tasks != [] && tasks[0] == Follow(Ref(a), depth)
    requires a in heap && a !in s.visit.at
    ensures Covered(heap, CellTasks(heap, heap[a], depth) + tasks[1..], Marked(s.visit, a, depth))
  {
    assert tasks == [Follow(Ref(a), depth)] + tasks[1..];
    MarkedCovers(heap, s.visit, tasks[1..], a, depth);
  }

  lemma ExpandIsEarly(heap: Heap, tasks: seq<Task>, s: State, a: Addr, depth: nat)
    requires EarlyOrNext(heap, tasks, s.visit) && tasks != [] && tasks[0] == Follow(Ref(a), depth)
    requires a in heap && a !in s.visit.at
    ensures EarlyOrNext(heap, CellTasks(heap, heap[a], depth) + tasks[1..], Marked(s.visit, a, depth))
  {
    assert tasks == [Follow(Ref(a), depth)] + tasks[1..];
    MarkedEarly(heap, s.visit, tasks[1..], a, depth);
  }

  lemma ExpandBalances(heap: Heap, tasks: seq<Task>, s: State, a: Addr, depth: nat)
    requires EachOnce(heap, s.visit) && AllBalanced(heap, tasks, s) && tasks != [] && tasks[0] == Follow(Ref(a), depth)
    requires a in heap && a !in s.visit.at
    ensures AllBalanced(heap, CellTasks(heap, heap[a], depth) + tasks[1..], s.(visit := Marked(s.visit, a, depth)))
  {
    assert tasks == [Follow(Ref(a), depth)] + tasks[1..];
    MarkedAllBalanced(heap, s, tasks[1..], a, depth);
  }

  lemma ExpandKeepsInv(heap: Heap, tasks: seq<Task>, s: State, a: Addr, depth: nat)
    requires Inv(heap, tasks, s) && tasks != [] && tasks[0] == Follow(Ref(a), depth)
    requires a in heap && a !in s.visit.at
    ensures Inv(heap, CellTasks(heap, heap[a], depth) + tasks[1..], s.(visit := Marked(s.visit, a, depth)))
  {
    ExpandKeepsPlaces(heap, tasks, s, a, depth);
    ExpandCovers(heap, tasks, s, a, depth);
    ExpandIsEarly(heap, tasks, s, a, depth);
    ExpandBalances(heap, tasks, s, a, depth);
  }

  lemma MarkedAllBalanced(heap: Heap, s: State, tasks: seq<Task>, a: Addr, depth: nat)
    requires EachOnce(heap, s.visit) && a in heap && a !in s.visit.at
    requires AllBalanced(heap, [Follow(Ref(a), depth)] + tasks, s)
    ensures AllBalanced(heap, CellTasks(heap, heap[a], depth) + tasks, s.(visit := Marked(s.visit, a, depth)))
  {
    forall watched
      ensures Balanced(heap, CellTasks(heap, heap[a], depth) + tasks, s.(visit := Marked(s.visit, a, depth)), watched)
    {
      assert Balanced(heap, [Follow(Ref(a), depth)] + tasks, s, watched);
      MarkedBalance(heap, s, tasks, a, depth, watched);
    }
  }

  lemma MarkedCovers(heap: Heap, visit: Visit, tasks: seq<Task>, a: Addr, depth: nat)
    requires Covered(heap, [Follow(Ref(a), depth)] + tasks, visit) && a in heap
    ensures Covered(heap, CellTasks(heap, heap[a], depth) + tasks, Marked(visit, a, depth))
  {
    forall x, b | x in Marked(visit, a, depth).at && Leads(heap)(x, b)
      ensures b in Marked(visit, a, depth).at || Pending(CellTasks(heap, heap[a], depth) + tasks, b)
    {
      PendingConcat(CellTasks(heap, heap[a], depth), tasks, b);
      PendingConcat([Follow(Ref(a), depth)], tasks, b);
      if x == a {
        CellFollows(heap, a, depth, b);
      }
    }
  }

  lemma {:induction false} ExecKeepsInv(heap: Heap, tasks: seq<Task>, s: State)
    requires Inv(heap, tasks, s)
    ensures Inv(heap, [], Exec(heap, tasks, s))
    decreases heap.Keys - s.visit.at.Keys, |tasks|
  {
    if tasks != [] {
      match tasks[0]
      case Offer(v, depth) =>
        OfferKeepsInv(heap, tasks, s);
        ExecKeepsInv(heap, tasks[1..], Emitted(heap, s, v, depth));
      case Follow(v, depth) =>
        if Fresh(heap, s.visit, v) {
          ExpandKeepsInv(heap, tasks, s, v.addr, depth);
          FewerLeft(heap, s.visit, v.addr, depth);
          ExecKeepsInv(heap, CellTasks(heap, heap[v.addr], depth) + tasks[1..],
                       s.(visit := Marked(s.visit, v.addr, depth)));
        } else {
          SkipKeepsInv(heap, tasks, s);
          ExecKeepsInv(heap, tasks[1..], s);
        }
    }
  }

  // What was expanded stays so.
  lemma {:induction false} ExecGrows(heap: Heap, tasks: seq<Task>, s: State)
    ensures s.visit.order <= Exec(heap, tasks, s).visit.order
    ensures forall a :: a in s.visit.at ==>
              a in Exec(heap, tasks, s).visit.at && Exec(heap, tasks, s).visit.at[a] == s.visit.at[a]
    decreases heap.Keys - s.visit.at.Keys, |tasks|
  {
    if tasks != [] {
      match tasks[0]
      case Offer(v, depth) => ExecGrows(heap, tasks[1..], Emitted(heap, s, v, depth));
      case Follow(v, depth) =>
        if Fresh(heap, s.visit, v) {
          FewerLeft(heap, s.visit, v.addr, depth);
          ExecGrows(heap, CellTasks(heap, heap[v.addr], depth) + tasks[1..],
                    s.(visit := Marked(s.visit, v.addr, depth)));
        } else {
          ExecGrows(heap, tasks[1..], s);
        }
    }
  }

  // ----- the traversal as a whole -----

  lemma FirstExpansion(heap: Heap, a: Addr)
    requires ValidHeap(heap) && a in heap
    ensures Inv(heap, CellTasks(heap, heap[a], 0), START.(visit := Marked(START.visit, a, 0)))
  {
    var visit, tasks := Marked(START.visit, a, 0), CellTasks(heap, heap[a], 0);
    assert visit.order == [a];
    assert AllDue(heap, [], START.visit) && Covered(heap, [Follow(Ref(a), 0)] + [], START.visit);
    MarkedDue(heap, START.visit, [], a, 0);
    MarkedCovers(heap, START.visit, [], a, 0);
    MarkedEarly(heap, START.visit, [], a, 0);
    assert tasks + [] == tasks;
    forall watched
      ensures Balanced(heap, tasks, START.(visit := visit), watched)
    {
      OffersConcat(heap, [Follow(Ref(a), 0)], [], watched);
      OffersOne(heap, Follow(Ref(a), 0), watched);
      MarkedBalance(heap, START, [], a, 0, watched);
    }
  }

  // On every finite heap, cyclic or not.
  lemma CollectedIsTraversal(heap: Heap, v: Value)
    requires ValidHeap(heap) && InHeap(heap, v)
    ensures Traversal(heap, v, Collected(heap, v))
  {
    var s := Collected(heap, v);
    ExecFollow(heap, v, 0, START);
    if v.Ref? {
      var tasks, first := CellTasks(heap, heap[v.addr], 0), START.(visit := Marked(START.visit, v.addr, 0));
      FirstExpansion(heap, v.addr);
      ExecKeepsInv(heap, tasks, first);
      ExecGrows(heap, tasks, first);
      assert s == Exec(heap, tasks, first) && first.visit.order == [v.addr];
      assert s.visit.order[0] == v.addr;
      forall k | 0 <= k < |s.visit.order|
        ensures Early(heap, s.visit, k)
      {
        assert !EarlyNext(heap, [], s.visit.order[k]);
      }
      AllAreReached(heap, v, s.visit);
      NothingIsMissed(heap, v, s.visit);
      forall watched: Symbolish -> bool
        ensures Count(s.out, watched) == Total(heap, s.visit.order, s.visit.at, watched)
      {
        assert Balanced(heap, [], s, watched);
      }
    }
  }

  lemma AllAreReached(heap: Heap, v: Value, visit: Visit)
    requires AllParents(heap, visit) && v.Ref? && visit.order != [] && visit.order[0] == v.addr
    ensures forall k :: 0 <= k < |visit.order| ==> Visits(heap, v, visit.order[k])
  {
    ReachesItself(Leads(heap), v.addr);
    for n := 1 to |visit.order|
      invariant forall k :: 0 <= k < n ==> Visits(heap, v, visit.order[k])
    {
      assert LedTo(heap, visit, n, visit.order[n], visit.at[visit.order[n]]);
      var q :| && 0 <= q < n && q < |visit.order| && visit.order[q] in visit.at
               && LeadsAt(heap, visit.order[q], visit.at[visit.order[q]], visit.order[n], visit.at[visit.order[n]]);
      LeadsAtLeads(heap, visit.order[q], visit.at[visit.order[q]], visit.order[n], visit.at[visit.order[n]]);
      ReachesFurther(Leads(heap), v.addr, visit.order[q], visit.order[n]);
    }
  }

  lemma NothingIsMissed(heap: Heap, v: Value, visit: Visit)
    requires Covered(heap, [], visit) && v.Ref? && v.addr in visit.at
    ensures forall a :: Visits(heap, v, a) ==> a in visit.at
  {
    forall a, b | a in visit.at.Keys && Leads(heap)(a, b)
      ensures b in visit.at.Keys
    {
      assert !Pending([], b);
    }
    ClosedSetsHoldAll(Leads(heap), v.addr, visit.at.Keys);
  }

  // ----- which symbols are output -----

  // Every item of an array is offered as a symbol, and what three keys of an object hold.
  ghost predicate Offered(cell: Cell, i: nat) {
    i < SlotCount(cell) && (cell.Obj? ==> cell.fields[i].0 in ["symbol", "target", "source"])
  }

  lemma SlotSymbolExactly(heap: Heap, cell: Cell, i: nat, d: nat, s: Symbolish)
    requires i < SlotCount(cell)
    ensures SlotSymbol(heap, cell, i, d) == Some(s) <==>
              Offered(cell, i) && s.depth == Some(if cell.Arr? then d else 0) && ReadsAs(heap, Slot(cell, i), s)
  {
    SymbolExactly(heap, Slot(cell, i), Some(d), s);
    SymbolExactly(heap, Slot(cell, i), Some(0), s);
  }

  ghost function Only(t: Symbolish): Symbolish -> bool {
    s => s == t
  }

  lemma {:induction false} CountPositive(out: seq<Symbolish>, t: Symbolish)
    ensures Count(out, Only(t)) > 0 <==> t in out
  {
    if out != [] {
      CountPositive(out[..|out| - 1], t);
      assert out == out[..|out| - 1] + [out[|out| - 1]];
    }
  }

  lemma {:induction false} CellPositive(heap: Heap, cell: Cell, n: nat, d: nat, t: Symbolish)
    requires n <= SlotCount(cell)
    ensures CellContribution(heap, cell, n, d, Only(t)) > 0 <==>
              exists i :: 0 <= i < n && SlotSymbol(heap, cell, i, d) == Some(t)
  {
    if n > 0 {
      CellPositive(heap, cell, n - 1, d, t);
    }
  }

  lemma {:induction false} TotalPositive(heap: Heap, addrs: seq<Addr>, at: map<Addr, nat>, t: Symbolish)
    ensures Total(heap, addrs, at, Only(t)) > 0 <==>
              exists a :: a in addrs && AddrContribution(heap, a, at, Only(t)) > 0
  {
    if addrs != [] {
      TotalPositive(heap, addrs[..|addrs| - 1], at, t);
      assert addrs == addrs[..|addrs| - 1] + [addrs[|addrs| - 1]];
    }
  }

  // The output, depths included: a symbol is there exactly when a slot of an expanded cell reads
  // as it, at the cell's depth for an array and at depth 0 for an object.
  lemma OutputExactly(heap: Heap, v: Value, t: State, s: Symbolish)
    requires Traversal(heap, v, t)
    ensures s in t.out <==>
              exists a, i ::
                && a in t.visit.order && a in heap && a in t.visit.at && Offered(heap[a], i)
                && s.depth == Some(if heap[a].Arr? then t.visit.at[a] else 0)
                && ReadsAs(heap, Slot(heap[a], i), s)
  {
    var visit := t.visit;
    CountPositive(t.out, s);
    assert Count(t.out, Only(s)) == Total(heap, visit.order, visit.at, Only(s));
    TotalPositive(heap, visit.order, visit.at, s);
    forall a | a in visit.order
      ensures AddrContribution(heap, a, visit.at, Only(s)) > 0 <==>
                exists i :: && Offered(heap[a], i)
                            && s.depth == Some(if heap[a].Arr? then visit.at[a] else 0)
                            && ReadsAs(heap, Slot(heap[a], i), s)
    {
      CellPositive(heap, heap[a], SlotCount(heap[a]), visit.at[a], s);
      forall i: nat | i < SlotCount(heap[a])
        ensures SlotSymbol(heap, heap[a], i, visit.at[a]) == Some(s) <==>
                  && Offered(heap[a], i)
                  && s.depth == Some(if heap[a].Arr? then visit.at[a] else 0)
                  && ReadsAs(heap, Slot(heap[a], i), s)
      {
        SlotSymbolExactly(heap, heap[a], i, visit.at[a], s);
      }
    }
  }

  // Some slot of a reachable cell reads as the symbol, depth aside.
  ghost predicate Named(heap: Heap, v: Value, t: Symbolish) {
    t.depth == None &&
    exists a, i :: Visits(heap, v, a) && a in heap && Offered(heap[a], i) && ReadsAs(heap, Slot(heap[a], i), t)
  }

  lemma ReadingIgnoresDepth(heap: Heap, v: Value, s: Symbolish)
    ensures ReadsAs(heap, v, s) <==> ReadsAs(heap, v, s.(depth := None))
  {
  }

  // The symbols of the output, depths aside, are exactly those the reachable cells name.
  lemma OutputIsNamed(heap: Heap, v: Value, t: Symbolish)
    requires ValidHeap(heap) && InHeap(heap, v) && t.depth == None
    ensures (exists s :: s in Collected(heap, v).out && s.(depth := None) == t) <==> Named(heap, v, t)
  {
    var c := Collected(heap, v);
    CollectedIsTraversal(heap, v);
    if s :| s in c.out && s.(depth := None) == t {
      OutputExactly(heap, v, c, s);
      var a, i :| && a in c.visit.order && a in heap && Offered(heap[a], i) && ReadsAs(heap, Slot(heap[a], i), s);
      ReadingIgnoresDepth(heap, Slot(heap[a], i), s);
      assert Visits(heap, v, a);
    }
    if Named(heap, v, t) {
      var a, i :| Visits(heap, v, a) && a in heap && Offered(heap[a], i) && ReadsAs(heap, Slot(heap[a], i), t);
      var s := t.(depth := Some(if heap[a].Arr? then c.visit.at[a] else 0));
      ReadingIgnoresDepth(heap, Slot(heap[a], i), s);
      OutputExactly(heap, v, c, s);
      assert s.(depth := None) == t;
    }
  }

  // ----- how many symbols are output -----

  ghost function AllSymbols(): Symbolish -> bool {
    s => true
  }

  ghost function SlotTotal(heap: Heap, addrs: seq<Addr>): nat {
    if addrs == [] then 0
    else SlotTotal(heap, addrs[..|addrs| - 1])
         + if addrs[|addrs| - 1] in heap then SlotCount(heap[addrs[|addrs| - 1]]) else 0
  }

  lemma {:induction false} CountEverything(out: seq<Symbolish>)
    ensures Count(out, AllSymbols()) == |out|
  {
    if out != [] {
      CountEverything(out[..|out| - 1]);
    }
  }

  lemma {:induction false} CellContributionBounded(heap: Heap, cell: Cell, n: nat, d: nat, watched: Symbolish -> bool)
    requires n <= SlotCount(cell)
    ensures CellContribution(heap, cell, n, d, watched) <= n
  {
    if n > 0 {
      CellContributionBounded(heap, cell, n - 1, d, watched);
    }
  }

  lemma {:induction false} TotalBounded(heap: Heap, addrs: seq<Addr>, at: map<Addr, nat>, watched: Symbolish -> bool)
    ensures Total(heap, addrs, at, watched) <= SlotTotal(heap, addrs)
  {
    if addrs != [] {
      TotalBounded(heap, addrs[..|addrs| - 1], at, watched);
      var a := addrs[|addrs| - 1];
      if a in heap && a in at {
        CellContributionBounded(heap, heap[a], SlotCount(heap[a]), at[a], watched);
      }
    }
  }

  // The output is no longer than the slots of the reachable cells.
  lemma OutputIsBounded(heap: Heap, v: Value, t: State)
    requires Traversal(heap, v, t)
    ensures |t.out| <= SlotTotal(heap, t.visit.order)
  {
    CountEverything(t.out);
    assert Count(t.out, AllSymbols()) == Total(heap, t.visit.order, t.visit.at, AllSymbols());
    TotalBounded(heap, t.visit.order, t.visit.at, AllSymbols());
  }

  ghost predicate BlindToDepth(watched: Symbolish -> bool) {
    forall s :: watched(s) == watched(s.(depth := None))
  }

  lemma SlotsBlind(heap: Heap, cell: Cell, i: nat, d: nat, e: nat, watched: Symbolish -> bool)
    requires i < SlotCount(cell) && BlindToDepth(watched)
    ensures One(SlotSymbol(heap, cell, i, d), watched) == One(SlotSymbol(heap, cell, i, e), watched)
  {
    var s, t := SlotSymbol(heap, cell, i, d), SlotSymbol(heap, cell, i, e);
    if s.Some? {
      assert t.Some? && s.value.(depth := None) == t.value.(depth := None);
    }
  }

  lemma {:induction false} CellsBlind(heap: Heap, cell: Cell, n: nat, d: nat, e: nat, watched: Symbolish -> bool)
    requires n <= SlotCount(cell) && BlindToDepth(watched)
    ensures CellContribution(heap, cell, n, d, watched) == CellContribution(heap, cell, n, e, watched)
  {
    if n > 0 {
      CellsBlind(heap, cell, n - 1, d, e, watched);
      SlotsBlind(heap, cell, n - 1, d, e, watched);
    }
  }

  lemma {:induction false} TotalBlind(heap: Heap, addrs: seq<Addr>, at: map<Addr, nat>, more: map<Addr, nat>,
                                      watched: Symbolish -> bool)
    requires BlindToDepth(watched) && forall a :: a in addrs ==> a in at && a in more
    ensures Total(heap, addrs, at, watched) == Total(heap, addrs, more, watched)
  {
    if addrs != [] {
      var a := addrs[|addrs| - 1];
      TotalBlind(heap, addrs[..|addrs| - 1], at, more, watched);
      if a in heap {
        CellsBlind(heap, heap[a], SlotCount(heap[a]), at[a], more[a], watched);
      }
    }
  }

  ghost function Omit(s: seq<Addr>, k: nat): seq<Addr>
    requires k < |s|
  {
    s[..k] + s[k + 1..]
  }

  lemma NonemptyTogether(a: seq<Addr>, b: seq<Addr>)
    requires forall x :: x in a <==> x in b
    ensures a != [] ==> b != []
  {
    if a != [] {
      assert a[0] in b;
    }
  }

  lemma {:induction false} TotalWithout(heap: Heap, addrs: seq<Addr>, k: nat, at: map<Addr, nat>,
                                        watched: Symbolish -> bool)
    requires k < |addrs|
    ensures Total(heap, addrs, at, watched)
         == Total(heap, Omit(addrs, k), at, watched) + AddrContribution(heap, addrs[k], at, watched)
  {
    var front, last := addrs[..|addrs| - 1], addrs[|addrs| - 1];
    var rest := Omit(addrs, k);
    if k == |addrs| - 1 {
      assert rest == front;
    } else {
      TotalWithout(heap, front, k, at, watched);
      assert rest[..|rest| - 1] == front[..k] + front[k + 1..] && rest[|rest| - 1] == last;
    }
  }

  // Where the last element of one list sits in the other, and that the rests still agree.
  lemma Without(a: seq<Addr>, b: seq<Addr>) returns (k: nat)
    requires a != [] && forall x :: x in a <==> x in b
    requires forall i, j :: 0 <= i < j < |a| ==> a[i] != a[j]
    requires forall i, j :: 0 <= i < j < |b| ==> b[i] != b[j]
    ensures k < |b| && b[k] == a[|a| - 1]
    ensures forall x :: x in a[..|a| - 1] <==> x in Omit(b, k)
    ensures forall i, j :: 0 <= i < j < |Omit(b, k)| ==> Omit(b, k)[i] != Omit(b, k)[j]
  {
    var front, last := a[..|a| - 1], a[|a| - 1];
    assert last in b;
    k :| 0 <= k < |b| && b[k] == last;
    var rest := Omit(b, k);
    assert a == front + [last] && b == b[..k] + [last] + b[k + 1..];
    forall x
      ensures x in front <==> x in rest
    {
      assert x in a <==> x in front || x == last;
      assert x in b <==> x in rest || x == last;
    }
  }

  // The total does not depend on the order.
  lemma {:induction false} TotalIgnoresOrder(heap: Heap, a: seq<Addr>, b: seq<Addr>, at: map<Addr, nat>,
                                             watched: Symbolish -> bool)
    requires forall x :: x in a <==> x in b
    requires forall i, j :: 0 <= i < j < |a| ==> a[i] != a[j]
    requires forall i, j :: 0 <= i < j < |b| ==> b[i] != b[j]
    ensures Total(heap, a, at, watched) == Total(heap, b, at, watched)
    decreases |a|
  {
    if a == [] {
      NonemptyTogether(b, a);
    } else {
      var k := Without(a, b);
      TotalIgnoresOrder(heap, a[..|a| - 1], Omit(b, k), at, watched);
      TotalWithout(heap, b, k, at, watched);
    }
  }

  lemma SameTotals(heap: Heap, x: Visit, y: Visit, watched: Symbolish -> bool)
    requires EachOnce(heap, x) && EachOnce(heap, y) && BlindToDepth(watched)
    requires forall a :: a in x.order <==> a in y.order
    ensures Total(heap, x.order, x.at, watched) == Total(heap, y.order, y.at, watched)
  {
    TotalBlind(heap, y.order, y.at, x.at, watched);
    TotalIgnoresOrder(heap, x.order, y.order, x.at, watched);
  }

  lemma CountIsTotal(heap: Heap, v: Value, t: State, watched: Symbolish -> bool)
    requires Traversal(heap, v, t)
    ensures Count(t.out, watched) == Total(heap, t.visit.order, t.visit.at, watched)
    ensures EachOnce(heap, t.visit) && forall a :: a in t.visit.order <==> Visits(heap, v, a)
  {
  }

  // How often a symbol is output, depths aside, is the same for every order a traversal might have.
  lemma MultiplicityIsDetermined(heap: Heap, v: Value, x: State, y: State, watched: Symbolish -> bool)
    requires Traversal(heap, v, x) && Traversal(heap, v, y) && BlindToDepth(watched)
    ensures Count(x.out, watched) == Count(y.out, watched)
  {
    CountIsTotal(heap, v, x, watched);
    CountIsTotal(heap, v, y, watched);
    SameTotals(heap, x.visit, y.visit, watched);
  }
}
