/**
 * Two explicit-stack walks of one static directory tree. Both should add up the sizes of all
 * files that are not symbolic links; one also counts entries and gives up beyond a cap.
 */
module DirectoryWalk {
  import opened Options

  datatype Tree = File(size: nat) | Link(size: nat) | Dir(size: nat, entries: seq<Tree>)

  // ----- the recursive meaning -----

  datatype Usage = Usage(bytes: nat, files: nat, directories: nat, skippedEntries: nat)

  // What is added up over a tree.
  datatype Metric = Bytes | Files | Directories | Links | Entries

  function OwnAmount(t: Tree, metric: Metric): nat {
    match metric
    case Bytes => if t.File? then t.size else 0
    case Files => if t.File? then 1 else 0
    case Directories => if t.Dir? then 1 else 0
    case Links => if t.Link? then 1 else 0
    case Entries => 1
  }

  function TreeSum(t: Tree, metric: Metric): nat
    decreases t, 0
  {
    OwnAmount(t, metric) + if t.Dir? then ForestSum(t.entries, metric) else 0
  }

  function ForestSum(ts: seq<Tree>, metric: Metric): nat
    decreases ts, 1
  {
    if ts == [] then 0 else TreeSum(ts[0], metric) + ForestSum(ts[1..], metric)
  }

  function TreeUsage(t: Tree): Usage {
    Usage(TreeSum(t, Bytes), TreeSum(t, Files), TreeSum(t, Directories), TreeSum(t, Links))
  }

  lemma {:induction false} ForestConcat(a: seq<Tree>, b: seq<Tree>, metric: Metric)
    ensures ForestSum(a + b, metric) == ForestSum(a, metric) + ForestSum(b, metric)
    decreases |a|
  {
    if a == [] {
      assert a + b == b;
    } else {
      assert (a + b)[1..] == a[1..] + b;
      ForestConcat(a[1..], b, metric);
    }
  }

  // Popping the last entry, and pushing the entries of a directory in its place.
  lemma ForestPop(rest: seq<Tree>, last: Tree, metric: Metric)
    ensures ForestSum(rest + [last], metric) ==
              ForestSum(rest, metric) + OwnAmount(last, metric)
              + if last.Dir? then ForestSum(last.entries, metric) else 0
    ensures last.Dir? ==>
              ForestSum(rest + last.entries, metric) == ForestSum(rest, metric) + ForestSum(last.entries, metric)
  {
    ForestConcat(rest, [last], metric);
    assert [last][1..] == [];
    assert ForestSum([last], metric) == TreeSum(last, metric);
    if last.Dir? {
      ForestConcat(rest, last.entries, metric);
    }
  }

  lemma LeafUsage(size: nat)
    ensures TreeUsage(File(size)) == Usage(size, 1, 0, 0)
    ensures TreeUsage(Link(size)) == Usage(0, 0, 0, 1)
  {
  }

  // The usage, entry by entry: a file counts its size, a link only as skipped, a directory as one
  // and for its entries.
  lemma UsageMeans(size: nat, entries: seq<Tree>, t: Tree)
    ensures TreeUsage(File(size)) == Usage(size, 1, 0, 0)
    ensures TreeUsage(Link(size)) == Usage(0, 0, 0, 1)
    ensures TreeUsage(Dir(size, [])) == Usage(0, 0, 1, 0)
    ensures var front, more := TreeUsage(Dir(size, entries)), TreeUsage(t);
      TreeUsage(Dir(size, entries + [t])) ==
        Usage(front.bytes + more.bytes, front.files + more.files,
              front.directories + more.directories, front.skippedEntries + more.skippedEntries)
  {
    LeafUsage(size);
    DirectorySum(size, []);
    DirectorySum(size, entries);
    DirectorySum(size, entries + [t]);
    forall metric
      ensures ForestSum(entries + [t], metric) == ForestSum(entries, metric) + TreeSum(t, metric)
    {
      ForestPop(entries, t, metric);
    }
  }

  lemma DirectorySum(size: nat, entries: seq<Tree>)
    ensures TreeUsage(Dir(size, entries)) ==
              Usage(ForestSum(entries, Bytes), ForestSum(entries, Files), 1 + ForestSum(entries, Directories),
                    ForestSum(entries, Links))
  {
  }

  // ----- the order of the capped walk -----

  // The entries a stack will be popped into: the last one first, a directory before its entries.
  ghost function Visit(t: Tree): seq<Tree>
    decreases t, 0
  {
    [t] + if t.Dir? then VisitStack(t.entries) else []
  }

  ghost function VisitStack(ts: seq<Tree>): seq<Tree>
    decreases ts, 1
  {
    if ts == [] then [] else Visit(ts[|ts| - 1]) + VisitStack(ts[..|ts| - 1])
  }

  lemma {:induction false} VisitConcat(a: seq<Tree>, b: seq<Tree>)
    ensures VisitStack(a + b) == VisitStack(b) + VisitStack(a)
    decreases |b|
  {
    if b == [] {
      assert a + b == a;
    } else {
      assert (a + b)[..|a + b| - 1] == a + b[..|b| - 1];
      VisitConcat(a, b[..|b| - 1]);
    }
  }

  // The order: a directory, then its last entry with all below it, then the entries before that.
  lemma VisitOrder(size: nat, entries: seq<Tree>, t: Tree)
    ensures Visit(File(size)) == [File(size)] && Visit(Link(size)) == [Link(size)]
    ensures Visit(Dir(size, [])) == [Dir(size, [])]
    ensures Visit(Dir(size, entries + [t])) == [Dir(size, entries + [t])] + (Visit(t) + Visit(Dir(size, entries))[1..])
  {
    assert (entries + [t])[..|entries|] == entries;
  }

  // The cap is looked at on entering a directory only: `count` entries so far, links not counted.
  ghost predicate CapHit(visits: seq<Tree>, count: nat, maxEntries: nat) {
    visits != [] &&
    if visits[0].Link? then CapHit(visits[1..], count, maxEntries)
    else (visits[0].Dir? && count + 1 > maxEntries) || CapHit(visits[1..], count + 1, maxEntries)
  }

  lemma Single(t: Tree)
    ensures forall metric :: ForestSum([t], metric) == TreeSum(t, metric)
    ensures VisitStack([t]) == Visit(t)
  {
  }

  // ----- the walks -----

  // The files and directories met, after one more entry.
  function Next(t: Tree, count: nat): nat {
    count + if t.Link? then 0 else 1
  }

  function Children(t: Tree): seq<Tree> {
    if t.Dir? then t.entries else []
  }

  lemma VisitMeans(t: Tree)
    ensures Visit(t) == [t] + VisitStack(Children(t))
  {
  }

  lemma VisitLast(rest: seq<Tree>, last: Tree)
    ensures VisitStack(rest + [last]) == Visit(last) + VisitStack(rest)
  {
  }

  lemma Regroup(x: Tree, a: seq<Tree>, b: seq<Tree>)
    ensures ([x] + a) + b == [x] + (a + b)
  {
  }

  lemma VisitPop(rest: seq<Tree>, last: Tree)
    ensures VisitStack(rest + [last]) == [last] + VisitStack(rest + Children(last))
  {
    VisitLast(rest, last);
    VisitMeans(last);
    VisitConcat(rest, Children(last));
    Regroup(last, VisitStack(Children(last)), VisitStack(rest));
  }

  lemma CapHead(t: Tree, visits: seq<Tree>, count: nat, maxEntries: nat)
    ensures CapHit([t] + visits, count, maxEntries) <==>
              (t.Dir? && Next(t, count) > maxEntries) || CapHit(visits, Next(t, count), maxEntries)
  {
  }

  lemma PopVisits(rest: seq<Tree>, last: Tree, count: nat, maxEntries: nat)
    ensures CapHit(VisitStack(rest + [last]), count, maxEntries) <==>
              || (last.Dir? && Next(last, count) > maxEntries)
              || CapHit(VisitStack(rest + Children(last)), Next(last, count), maxEntries)
  {
    VisitPop(rest, last);
    CapHead(last, VisitStack(rest + Children(last)), count, maxEntries);
  }

  // A popped entry leaves the stack with its own amounts and its entries take its place.
  lemma PopSums(rest: seq<Tree>, last: Tree)
    ensures forall metric :: ForestSum(rest + [last], metric) ==
                               ForestSum(rest + Children(last), metric) + OwnAmount(last, metric)
  {
    assert rest + [] == rest;
    forall metric
      ensures ForestSum(rest + [last], metric) == ForestSum(rest + Children(last), metric) + OwnAmount(last, metric)
    {
      ForestPop(rest, last, metric);
    }
  }

  // directoryUsage; a root that does not exist is no usage. None is the thrown cap error. The
  // fields of the usage record are kept in variables of their own.
  method DirectoryUsage(root: Option<Tree>, maxEntries: nat) returns (result: Option<Usage>)
    ensures result.Some? ==> result.value == if root.Some? then TreeUsage(root.value) else Usage(0, 0, 0, 0)
    ensures result.None? <==> root.Some? && CapHit(Visit(root.value), 0, maxEntries)
  {
    var bytes, files, directories, skippedEntries := 0, 0, 0, 0;
    var pending := if root.Some? then [root.value] else [];
    ghost var all := pending;
    ghost var cap := CapHit(VisitStack(pending), 0, maxEntries);
    while pending != []
      invariant bytes + ForestSum(pending, Bytes) == ForestSum(all, Bytes)
      invariant files + ForestSum(pending, Files) == ForestSum(all, Files)
      invariant directories + ForestSum(pending, Directories) == ForestSum(all, Directories)
      invariant skippedEntries + ForestSum(pending, Links) == ForestSum(all, Links)
      invariant cap == CapHit(VisitStack(pending), files + directories, maxEntries)
      invariant cap ==> root.Some?
      decreases ForestSum(pending, Entries)
    {
      var rest, current := pending[..|pending| - 1], pending[|pending| - 1];
      assert pending == rest + [current] && rest + [] == rest;
      PopSums(rest, current);
      PopVisits(rest, current, files + directories, maxEntries);
      pending := rest;
      match current {
        case Link(_) =>
          skippedEntries := skippedEntries + 1;
        case File(size) =>
          files := files + 1;
          bytes := bytes + size;
        case Dir(_, entries) =>
          directories := directories + 1;
          if files + directories > maxEntries {
            if root.Some? {
              Single(root.value);
            }
            return None;
          }
          pending := pending + entries;
      }
    }
    if root.Some? {
      Single(root.value);
    }
    result := Some(Usage(bytes, files, directories, skippedEntries));
  }

  // directoryBytes; a root that is a file or a link answers its own size.
  method DirectoryBytes(root: Option<Tree>) returns (total: nat)
    ensures total ==
      if root.None? then 0 else if root.value.Dir? then TreeUsage(root.value).bytes else root.value.size
  {
    if root.None? {
      return 0;
    }
    if !root.value.Dir? {
      return root.value.size;
    }
    total := 0;
    var pending := [root.value];
    Single(root.value);
    while pending != []
      invariant forall i :: 0 <= i < |pending| ==> pending[i].Dir?
      invariant total + ForestSum(pending, Bytes) == TreeSum(root.value, Bytes)
      decreases ForestSum(pending, Entries)
    {
      var current := pending[|pending| - 1];
      assert pending == pending[..|pending| - 1] + [current];
      pending := pending[..|pending| - 1];
      ForestPop(pending, current, Bytes);
      ForestPop(pending, current, Entries);
      var added, bytes := ListDirectory(current.entries);
      ForestConcat(pending, added, Bytes);
      ForestConcat(pending, added, Entries);
      pending, total := pending + added, total + bytes;
    }
  }

  // The inner loop: the subdirectories to push and the bytes of the files beside them.
  method ListDirectory(entries: seq<Tree>) returns (added: seq<Tree>, bytes: nat)
    ensures forall k :: 0 <= k < |added| ==> added[k].Dir?
    ensures bytes + ForestSum(added, Bytes) == ForestSum(entries, Bytes)
    ensures ForestSum(added, Entries) <= ForestSum(entries, Entries)
  {
    added, bytes := [], 0;
    for i := 0 to |entries|
      invariant forall k :: 0 <= k < |added| ==> added[k].Dir?
      invariant bytes + ForestSum(added, Bytes) == ForestSum(entries[..i], Bytes)
      invariant ForestSum(added, Entries) <= ForestSum(entries[..i], Entries)
    {
      assert entries[..i + 1] == entries[..i] + [entries[i]];
      ForestPop(entries[..i], entries[i], Bytes);
      ForestPop(entries[..i], entries[i], Entries);
      match entries[i] {
        case Link(_) =>
        case Dir(_, _) =>
          ForestPop(added, entries[i], Bytes);
          ForestPop(added, entries[i], Entries);
          added := added + [entries[i]];
        case File(size) =>
          bytes := bytes + size;
      }
    }
    assert entries[..|entries|] == entries;
  }

  // ----- the two walks compared, and the cap -----

  // Whenever the capped walk finishes, the two byte totals agree, exactly unless the root itself
  // is a link of non-zero size.
  method WalksAgree(root: Tree, maxEntries: nat) returns (capped: Option<Usage>, plain: nat)
    ensures capped.Some? ==> (capped.value.bytes == plain <==> !(root.Link? && root.size > 0))
  {
    capped := DirectoryUsage(Some(root), maxEntries);
    plain := DirectoryBytes(Some(root));
  }

  ghost function Counted(visits: seq<Tree>): nat {
    if visits == [] then 0 else (if visits[0].Link? then 0 else 1) + Counted(visits[1..])
  }

  // On entering the k-th entry, a directory, the files and directories met are beyond the cap.
  ghost predicate BeyondAt(visits: seq<Tree>, count: nat, maxEntries: nat, k: nat) {
    k < |visits| && visits[k].Dir? && count + Counted(visits[..k + 1]) > maxEntries
  }

  lemma BeyondShift(visits: seq<Tree>, count: nat, maxEntries: nat, k: nat)
    requires visits != []
    ensures BeyondAt(visits, count, maxEntries, k + 1) == BeyondAt(visits[1..], Next(visits[0], count), maxEntries, k)
    ensures BeyondAt(visits, count, maxEntries, 0) == (visits[0].Dir? && count + 1 > maxEntries)
  {
    if k + 1 < |visits| {
      assert visits[..k + 2][1..] == visits[1..][..k + 1];
    }
    assert visits[..1] == [visits[0]] && [visits[0]][1..] == [];
    assert Counted([visits[0]]) == (if visits[0].Link? then 0 else 1) + Counted([visits[0]][1..]);
  }

  lemma {:induction false} CapHitSomewhere(visits: seq<Tree>, count: nat, maxEntries: nat) returns (k: nat)
    requires CapHit(visits, count, maxEntries)
    ensures BeyondAt(visits, count, maxEntries, k)
  {
    if visits[0].Dir? && count + 1 > maxEntries {
      k := 0;
      BeyondShift(visits, count, maxEntries, 0);
    } else {
      var j := CapHitSomewhere(visits[1..], Next(visits[0], count), maxEntries);
      BeyondShift(visits, count, maxEntries, j);
      k := j + 1;
    }
  }

  lemma {:induction false} SomewhereHitsCap(visits: seq<Tree>, count: nat, maxEntries: nat, k: nat)
    requires BeyondAt(visits, count, maxEntries, k)
    ensures CapHit(visits, count, maxEntries)
  {
    if k == 0 {
      BeyondShift(visits, count, maxEntries, 0);
    } else {
      BeyondShift(visits, count, maxEntries, k - 1);
      SomewhereHitsCap(visits[1..], Next(visits[0], count), maxEntries, k - 1);
    }
  }

  // The cap is hit exactly when some directory, on being entered, is beyond it together with the
  // files and directories met before it.
  lemma CapHitExactly(visits: seq<Tree>, count: nat, maxEntries: nat)
    ensures CapHit(visits, count, maxEntries) <==> exists k :: BeyondAt(visits, count, maxEntries, k)
  {
    if CapHit(visits, count, maxEntries) {
      var k := CapHitSomewhere(visits, count, maxEntries);
    }
    if k :| BeyondAt(visits, count, maxEntries, k) {
      SomewhereHitsCap(visits, count, maxEntries, k);
    }
  }

  lemma {:induction false} CountedConcat(a: seq<Tree>, b: seq<Tree>)
    ensures Counted(a + b) == Counted(a) + Counted(b)
  {
    if a == [] {
      assert a + b == b;
    } else {
      assert (a + b)[1..] == a[1..] + b;
      CountedConcat(a[1..], b);
    }
  }

  lemma {:induction false} VisitCounts(t: Tree)
    ensures Counted(Visit(t)) == TreeSum(t, Files) + TreeSum(t, Directories)
    decreases t, 0
  {
    assert Visit(t)[1..] == if t.Dir? then VisitStack(t.entries) else [];
    if t.Dir? {
      StackCounts(t.entries);
    }
  }

  lemma {:induction false} StackCounts(ts: seq<Tree>)
    ensures Counted(VisitStack(ts)) == ForestSum(ts, Files) + ForestSum(ts, Directories)
    decreases ts, 1
  {
    if ts != [] {
      var rest, last := ts[..|ts| - 1], ts[|ts| - 1];
      VisitCounts(last);
      StackCounts(rest);
      CountedConcat(Visit(last), VisitStack(rest));
      assert VisitStack(ts) == Visit(last) + VisitStack(rest);
      assert ts == rest + [last];
      ForestPop(rest, last, Files);
      ForestPop(rest, last, Directories);
    }
  }

  // A tree of at most maxEntries files and directories always gets its usage.
  lemma SmallTreesAreCounted(t: Tree, maxEntries: nat)
    requires TreeSum(t, Files) + TreeSum(t, Directories) <= maxEntries
    ensures !CapHit(Visit(t), 0, maxEntries)
  {
    VisitCounts(t);
    var visits := Visit(t);
    CapHitExactly(visits, 0, maxEntries);
    forall k: nat
      ensures !BeyondAt(visits, 0, maxEntries, k)
    {
      if k < |visits| {
        assert visits == visits[..k + 1] + visits[k + 1..];
        CountedConcat(visits[..k + 1], visits[k + 1..]);
      }
    }
  }

  // The converse fails: one directory of any number of files is never beyond the cap.
  lemma FlatDirectoriesEscapeTheCap(size: nat, files: seq<Tree>, maxEntries: nat)
    requires forall i :: 0 <= i < |files| ==> files[i].File?
    requires maxEntries > 0
    ensures !CapHit(Visit(Dir(size, files)), 0, maxEntries)
  {
    var visits := Visit(Dir(size, files));
    assert visits == [Dir(size, files)] + VisitStack(files);
    FilesOnly(files);
    assert forall k :: 0 < k < |visits| ==> visits[k].File?;
    CapHitExactly(visits, 0, maxEntries);
    BeyondShift(visits, 0, maxEntries, 0);
    forall k: nat
      ensures !BeyondAt(visits, 0, maxEntries, k)
    {
    }
  }

  lemma {:induction false} FilesOnly(files: seq<Tree>)
    requires forall i :: 0 <= i < |files| ==> files[i].File?
    ensures forall i :: 0 <= i < |VisitStack(files)| ==> VisitStack(files)[i].File?
  {
    if files != [] {
      var rest, last := files[..|files| - 1], files[|files| - 1];
      FilesOnly(rest);
      assert VisitStack(files) == Visit(last) + VisitStack(rest);
      assert Visit(last) == [last] + [] == [last];
    }
  }
}
