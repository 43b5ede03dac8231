/**
 The collector at work on the cache directory (internal/cas/maintenance.go). The
 fields `removed`, `after`, `reclaimed` and `count` are what collect's closures
 share; `origin` and `gone` say which files they stand for.
 */
module CasCache {
  import Sets
  import opened CasMaintenance
  import opened CasCollection

  // ----- Removing files -----

  function Filter(paths: seq<Path>, gone: set<Path>): seq<Path> {
    if paths == [] then []
    else
      var last := paths[|paths| - 1];
      Filter(paths[..|paths| - 1], gone) + if last in gone then [] else [last]
  }

  function Keep(f: Files, gone: set<Path>): Files {
    Files(Filter(f.paths, gone), f.nodes - gone)
  }

  function PathsOf(f: Files, ids: set<string>): set<Path> {
    set p | p in f.paths && Id(p) in ids
  }

  lemma {:induction false} FilterFacts(paths: seq<Path>, gone: set<Path>)
    ensures forall p :: p in Filter(paths, gone) <==> p in paths && p !in gone
    ensures (forall i, j :: 0 <= i < j < |paths| ==> paths[i] != paths[j]) ==>
            forall i, j :: 0 <= i < j < |Filter(paths, gone)| ==> Filter(paths, gone)[i] != Filter(paths, gone)[j]
  {
    if paths != [] {
      var init, last := paths[..|paths| - 1], paths[|paths| - 1];
      FilterFacts(init, gone);
      assert paths == init + [last];
      var kept := Filter(init, gone);
      assert forall i :: 0 <= i < |kept| ==> kept[i] in init;
      if forall i, j :: 0 <= i < j < |paths| ==> paths[i] != paths[j] {
        assert forall i, j :: 0 <= i < j < |init| ==> init[i] != init[j];
        assert last !in init;
      }
    }
  }

  lemma KeepIsValid(f: Files, gone: set<Path>)
    requires ValidFiles(f)
    ensures ValidFiles(Keep(f, gone))
  {
    FilterFacts(f.paths, gone);
  }

  lemma {:induction false} FilterTwice(paths: seq<Path>, a: set<Path>, b: set<Path>)
    ensures Filter(Filter(paths, a), b) == Filter(paths, a + b)
  {
    if paths != [] {
      var init, last := paths[..|paths| - 1], paths[|paths| - 1];
      FilterTwice(init, a, b);
      if last in a {
        assert Filter(paths, a) == Filter(init, a);
      } else {
        assert Filter(paths, a)[..|Filter(paths, a)| - 1] == Filter(init, a);
      }
    }
  }

  lemma KeepTwice(f: Files, a: set<Path>, b: set<Path>)
    ensures Keep(Keep(f, a), b) == Keep(f, a + b)
  {
    FilterTwice(f.paths, a, b);
  }

  lemma {:induction false} FilterNothing(paths: seq<Path>)
    ensures Filter(paths, {}) == paths
  {
    if paths != [] {
      FilterNothing(paths[..|paths| - 1]);
    }
  }

  lemma KeepAll(f: Files)
    ensures Keep(f, {}) == f
  {
    FilterNothing(f.paths);
  }

  // ----- Counting what is left -----

  lemma {:induction false} CountKept(paths: seq<Path>, nodes: map<Path, Node>, kept: map<Path, Node>, gone: set<Path>,
                                     ids: set<string>, removed: set<string>)
    requires forall p :: p in paths ==> p in nodes && (p in gone <==> Id(p) in removed)
    requires forall p :: p in paths && p !in gone ==> p in kept && kept[p] == nodes[p]
    requires forall p :: p in Filter(paths, gone) ==> p in kept
    ensures Count(Filter(paths, gone), kept, ids - removed) == Count(paths, nodes, ids - removed)
  {
    if paths != [] {
      var init, last := paths[..|paths| - 1], paths[|paths| - 1];
      assert forall p :: p in init ==> p in paths;
      FilterFacts(init, gone);
      CountKept(init, nodes, kept, gone, ids, removed);
      assert last in paths;
      if last in gone {
        assert Filter(paths, gone) == Filter(init, gone);
      } else {
        CountLast(Filter(init, gone), last, kept, ids - removed);
        assert Filter(paths, gone) == Filter(init, gone) + [last];
      }
    }
  }

  lemma CountLast(paths: seq<Path>, last: Path, nodes: map<Path, Node>, ids: set<string>)
    requires last in nodes && forall p :: p in paths ==> p in nodes
    ensures Count(paths + [last], nodes, ids) ==
            if Id(last) in ids then Count(paths, nodes, ids).Plus(PathUsage(last, nodes[last]))
              else Count(paths, nodes, ids)
  {
    assert (paths + [last])[..|paths|] == paths;
  }

  /** The files of the surviving entries, after complete removals. */
  function Remaining(f: Files, removed: set<string>): Files {
    Keep(f, PathsOf(f, removed))
  }

  lemma RemainingIds(f: Files, removed: set<string>)
    requires ValidFiles(f)
    ensures ValidFiles(Remaining(f, removed)) && Ids(Remaining(f, removed)) == Ids(f) - removed
  {
    KeepIsValid(f, PathsOf(f, removed));
    FilterFacts(f.paths, PathsOf(f, removed));
    forall id | id in Ids(f) - removed ensures id in Ids(Remaining(f, removed)) {
      var p :| p in f.paths && Id(p) == id;
      assert p in Remaining(f, removed).paths;
    }
  }

  /** The running total agrees with counting the remaining files afresh. */
  lemma RecountAgrees(f: Files, removed: set<string>)
    requires ValidFiles(f)
    ensures ValidFiles(Remaining(f, removed))
    ensures Counted(Remaining(f, removed), Ids(Remaining(f, removed))) == Counted(f, Ids(f) - removed)
  {
    RemainingIds(f, removed);
    FilterFacts(f.paths, PathsOf(f, removed));
    CountKept(f.paths, f.nodes, f.nodes - PathsOf(f, removed), PathsOf(f, removed), Ids(f), removed);
  }

  // ----- The collector -----

  /** The running totals are those of the entries removed so far. */
  ghost predicate Accounted(f: Files, removed: set<string>, after: Usage, reclaimed: int, count: int) {
    && ValidFiles(f) && removed <= Ids(f)
    && after == Counted(f, Ids(f) - removed)
    && Counted(f, Ids(f)).retained + Counted(f, Ids(f)).work == after.retained + after.work + reclaimed
    && count == |removed|
  }

  lemma AccountedIsValid(f: Files, removed: set<string>, after: Usage, reclaimed: int, count: int)
    requires Accounted(f, removed, after, reclaimed, count)
    ensures ValidFiles(f)
  {}

  lemma AccountsForOneMore(f: Files, removed: set<string>, after: Usage, reclaimed: int, count: int, e: Entry)
    requires Accounted(f, removed, after, reclaimed, count)
    requires e.id in Ids(f) && e.id !in removed && e == EntryOf(f, e.id)
    ensures Accounted(f, removed + {e.id}, after.Minus(e.usage), reclaimed + e.usage.retained + e.usage.work, count + 1)
  {
    hide Counted, Ids, ValidFiles, EntryOf;
    RemovalStep(f, removed, e);
  }

  class Cache {
    var files: Files
    var removed: set<string>
    var after: Usage
    var reclaimed: int
    var count: int
    ghost var origin: Files
    ghost var gone: set<Path>

    constructor (files: Files)
      requires ValidFiles(files)
      ensures Valid() && this.files == files
    {
      this.files := files;
    }

    ghost predicate Valid()
      reads this
    {
      ValidFiles(files)
    }

    /** The result adds up, and the disk lacks exactly the files in `gone`. */
    ghost predicate Running(dryRun: bool)
      reads this
    {
      && Accounted(origin, removed, after, reclaimed, count)
      && PathsOf(origin, removed) <= gone
      && files == if dryRun then origin else Keep(origin, gone)
    }

    ghost predicate Complete()
      reads this
    {
      gone == PathsOf(origin, removed)
    }

    /** Deletes an entry's files until one cannot be deleted. */
    method RemoveFiles(paths: seq<Path>, broken: set<Path>) returns (ok: bool)
      modifies this`files, this`gone
      requires files == Keep(origin, gone)
      ensures files == Keep(origin, gone)
      ensures old(gone) <= gone <= old(gone) + set p | p in paths
      ensures ok ==> gone == old(gone) + set p | p in paths
      ensures broken == {} ==> ok
    {
      hide Keep;
      ghost var before := gone;
      for i := 0 to |paths|
        invariant files == Keep(origin, gone)
        invariant gone == before + set p | p in paths[..i]
      {
        if paths[i] in broken {
          return false;
        }
        KeepTwice(origin, gone, {paths[i]});
        files := Keep(files, {paths[i]});
        gone := gone + {paths[i]};
        assert paths[..i + 1] == paths[..i] + [paths[i]];
      }
      assert paths[..|paths|] == paths;
      return true;
    }

    /** Removes one entry's own files and accounts for them. */
    method Take(e: Entry, dryRun: bool, broken: set<Path>) returns (ok: bool)
      requires Running(dryRun) && Complete()
      requires e.id in Ids(origin) && e.id !in removed && e == EntryOf(origin, e.id)
      modifies this`files, this`removed, this`after, this`reclaimed, this`count, this`gone
      ensures Running(dryRun)
      ensures if ok then Complete() && removed == old(removed) + {e.id} else removed == old(removed)
      ensures gone <= PathsOf(origin, old(removed) + {e.id})
      ensures dryRun || broken == {} ==> ok
    {
      hide Accounted, Counted, Ids, Keep, PathsOf, ValidFiles, EntryOf, Id;
      assert ValidFiles(origin) by { AccountedIsValid(origin, removed, after, reclaimed, count); }
      RemovalStep(origin, removed, e);
      AccountsForOneMore(origin, removed, after, reclaimed, count, e);
      ok := true;
      if !dryRun {
        ok := RemoveFiles(e.paths, broken);
        if !ok {
          return;
        }
      } else {
        gone := gone + set p | p in e.paths;
      }
      removed := removed + {e.id};
      after := after.Minus(e.usage);
      reclaimed := reclaimed + e.usage.retained + e.usage.work;
      count := count + 1;
    }

    /** Removes an entry and, for an object, the indexes that name it. */
    method Remove(entries: seq<Entry>, n: nat, dryRun: bool, broken: set<Path>) returns (ok: bool)
      requires Running(dryRun) && Complete()
      requires Enumerates(entries, origin, Ids(origin)) && Listed(entries) && n < |entries|
      modifies this`files, this`removed, this`after, this`reclaimed, this`count, this`gone
      ensures Running(dryRun)
      ensures ok ==> Complete() && removed == Cascade(entries, old(removed), entries[n].id)
      ensures Within(old(removed), Cascade(entries, old(removed), entries[n].id))
      ensures dryRun || broken == {} ==> ok
      decreases |Ids(origin) - removed|, 0
    {
      hide Accounted, Counted, Keep, Id, Ids, PathsOf, Dependents, Names, Listed, EntryOf, Enumerates, ValidFiles;
      var e := entries[n];
      CompleteGone(dryRun);
      if e.id in removed {
        return true;
      }
      EnumeratedEntry(entries, origin, n);
      ghost var start := removed;
      PathsOfGrows(origin, start + {e.id}, Cascade(entries, start, e.id));
      ok := Take(e, dryRun, broken);
      if !ok {
        return;
      }
      assert Ids(origin) - removed < Ids(origin) - start by { assert e.id in Ids(origin); }
      Sets.Smaller(Ids(origin) - removed, Ids(origin) - start);
      ok := RemoveDependents(entries, e.id, dryRun, broken);
    }

    method RemoveDependents(entries: seq<Entry>, id: string, dryRun: bool, broken: set<Path>) returns (ok: bool)
      requires Running(dryRun) && Complete()
      requires Enumerates(entries, origin, Ids(origin)) && Listed(entries)
      modifies this`files, this`removed, this`after, this`reclaimed, this`count, this`gone
      ensures Running(dryRun)
      ensures ok ==> Complete() && removed == old(removed) + Dependents(entries, id)
      ensures Within(old(removed), old(removed) + Dependents(entries, id))
      ensures dryRun || broken == {} ==> ok
      decreases |Ids(origin) - removed|, 1
    {
      hide Running, Complete, Ids, PathsOf, Dependents, Names, Listed, Enumerates, ValidFiles;
      ghost var start := removed;
      ghost var bound := start + Dependents(entries, id);
      CompleteGone(dryRun);
      PathsOfGrows(origin, start, bound);
      NoDependents(entries, id);
      for i := 0 to |entries|
        invariant Running(dryRun) && Complete()
        invariant removed == start + Dependents(entries[..i], id) && Within(start, bound)
      {
        DependentsNext(entries, i, id);
        if Names(entries[i], id) {
          DependentsHaveNone(entries, id, entries[i].id);
          PathsOfGrows(origin, Cascade(entries, removed, entries[i].id), bound);
          Sets.NotLarger(Ids(origin) - removed, Ids(origin) - start);
          ok := Remove(entries, i, dryRun, broken);
          if !ok {
            return;
          }
        }
      }
      assert entries[..|entries|] == entries;
      return true;
    }

    /** What a removal that may have stopped partway has touched. */
    ghost predicate Within(least: set<string>, most: set<string>)
      reads this
    {
      least <= removed <= most && gone <= PathsOf(origin, most)
    }

    /** One collection; `cutoff` is the clock minus the grace period. The prune lock is held.
        One that fails partway has touched nothing that a whole one would keep. */
    method Collect(limit: nat, cutoff: int, all: bool, dryRun: bool, evict: bool, broken: set<Path>)
      returns (ok: bool, before: Usage, ghost order: seq<Entry>)
      requires Valid()
      modifies this
      ensures Valid() && origin == old(files) && Running(dryRun)
      ensures InOrder(order, origin) && before == Counted(origin, Ids(origin))
      ensures ok ==> Complete() && removed == Collected(origin, order, limit, cutoff, all, evict)
      ensures Within({}, Collected(origin, order, limit, cutoff, all, evict))
      ensures ok && !dryRun ==> after == Counted(files, Ids(files))
      ensures dryRun || broken == {} ==> ok
    {
      hide Counted, Ids, Enumerates, Keep, PathsOf, Dependents, Names, Ordered, Listed;
      var entries, usage := Inventory(files);
      ghost var f := files;
      before := usage;
      origin, gone, removed := files, {}, {};
      after, reclaimed, count := usage, 0, 0;
      StartsRunning(f);
      SortedInventory(entries, f);
      order := Sorted(entries);
      SweepIgnoresOrder(entries, order, all, evict);
      EvictGrows(f, order, 0, Sweep(order, |order|, all, evict), limit, cutoff);
      for i := 0 to |entries|
        invariant origin == f && Running(dryRun) && Complete()
        invariant removed == Sweep(entries, i, all, evict)
      {
        if Swept(entries[i], all, evict) {
          SweepGrows(entries, i + 1, |entries|, all, evict);
          ok := Remove(entries, i, dryRun, broken);
          if !ok {
            WidenTo({}, Collected(f, order, limit, cutoff, all, evict), Sweep(entries, i + 1, all, evict));
            KeepsValid(dryRun);
            return;
          }
        }
      }
      KeepsValid(dryRun);
      Recounts(dryRun);
      IsWithin();
      ok := true;
      if !evict || limit == 0 || all {
        return;
      }
      ok := EvictOldest(Sorted(entries), limit, cutoff, dryRun, broken);
      KeepsValid(dryRun);
      if ok {
        Recounts(dryRun);
      }
    }

    /** The second pass of a collection. */
    method EvictOldest(entries: seq<Entry>, limit: nat, cutoff: int, dryRun: bool, broken: set<Path>) returns (ok: bool)
      requires Running(dryRun) && Complete() && InOrder(entries, origin)
      modifies this`files, this`removed, this`after, this`reclaimed, this`count, this`gone
      ensures Running(dryRun)
      ensures ok ==> Complete() && removed == Evict(origin, entries, 0, old(removed), limit, cutoff)
      ensures Within({}, Evict(origin, entries, 0, old(removed), limit, cutoff))
      ensures dryRun || broken == {} ==> ok
    {
      hide Counted, Ids, Enumerates, Keep, PathsOf, Dependents, Names, Ordered, Listed;
      ghost var start := removed;
      for i := 0 to |entries|
        invariant Running(dryRun) && Complete()
        invariant Evict(origin, entries, i, removed, limit, cutoff) == Evict(origin, entries, 0, start, limit, cutoff)
      {
        if after.retained <= limit {
          IsWithin();
          return true;
        }
        if entries[i].id !in removed && entries[i].used < cutoff {
          ghost var next := Cascade(entries, removed, entries[i].id);
          EvictGrows(origin, entries, i + 1, next, limit, cutoff);
          ok := Remove(entries, i, dryRun, broken);
          if !ok {
            WidenTo({}, Evict(origin, entries, 0, start, limit, cutoff), next);
            return;
          }
        }
      }
      IsWithin();
      return true;
    }

    lemma IsWithin()
      requires Complete()
      ensures Within({}, removed)
    {}

    lemma WidenTo(least: set<string>, most: set<string>, part: set<string>)
      requires exists some :: Within(some, part) && least <= some
      requires part <= most
      ensures Within(least, most)
    {
      PathsOfGrows(origin, part, most);
    }

    lemma StartsRunning(f: Files)
      requires Valid() && files == f && origin == f && gone == {} && removed == {} && reclaimed == 0 && count == 0
      requires after == Counted(f, Ids(f))
      ensures Running(true) && Running(false) && Complete()
    {
      KeepAll(f);
      assert Ids(f) - {} == Ids(f);
    }

    lemma Recounts(dryRun: bool)
      requires Running(dryRun) && Complete()
      ensures !dryRun ==> ValidFiles(files) && after == Counted(files, Ids(files))
    {
      RecountAgrees(origin, removed);
    }

    lemma KeepsValid(dryRun: bool)
      requires Running(dryRun)
      ensures Valid()
    {
      KeepIsValid(origin, gone);
    }

    lemma CompleteGone(dryRun: bool)
      requires Running(dryRun) && Complete()
      ensures gone == PathsOf(origin, removed) && ValidFiles(origin)
    {}
  }

  lemma EnumeratedEntry(entries: seq<Entry>, f: Files, n: nat)
    requires ValidFiles(f) && Enumerates(entries, f, Ids(f)) && n < |entries|
    ensures entries[n].id in Ids(f) && entries[n] == EntryOf(f, entries[n].id)
  {}

  lemma PathsOfGrows(f: Files, a: set<string>, b: set<string>)
    requires a <= b
    ensures PathsOf(f, a) <= PathsOf(f, b)
  {}

  lemma NoDependents(entries: seq<Entry>, id: string)
    ensures Dependents(entries[..0], id) == {}
  {}

  lemma DependentsNext(entries: seq<Entry>, i: nat, id: string)
    requires i < |entries|
    ensures Dependents(entries[..i + 1], id) ==
            Dependents(entries[..i], id) + if Names(entries[i], id) then {entries[i].id} else {}
    ensures Dependents(entries[..i + 1], id) <= Dependents(entries, id)
    ensures Names(entries[i], id) ==> entries[i].id in Dependents(entries, id)
  {
    var next := entries[..i + 1];
    assert forall k :: 0 <= k < i ==> next[k] == entries[..i][k];
    forall k | 0 <= k <= i && Names(next[k], id)
      ensures next[k].id in Dependents(entries[..i], id) + if Names(entries[i], id) then {entries[i].id} else {}
    {
      assert k < i ==> entries[..i][k] == next[k];
    }
    assert next[i] == entries[i];
    forall k | 0 <= k < i && Names(entries[..i][k], id) ensures entries[k].id in Dependents(next, id) {
      assert next[k] == entries[k];
    }
    forall k | 0 <= k <= i && Names(next[k], id) ensures next[k].id in Dependents(entries, id) {
      assert next[k] == entries[k];
    }
  }

  lemma RemovalStep(f: Files, removed: set<string>, e: Entry)
    requires ValidFiles(f) && e.id in Ids(f) && e.id !in removed && e == EntryOf(f, e.id)
    ensures PathsOf(f, removed + {e.id}) == PathsOf(f, removed) + set p | p in e.paths
    ensures Counted(f, Ids(f) - removed) == Counted(f, Ids(f) - (removed + {e.id})).Plus(e.usage)
  {
    EntryFacts(f, e.id);
    CountSplits(f.paths, f.nodes, Ids(f) - (removed + {e.id}), {e.id});
    assert Ids(f) - (removed + {e.id}) + {e.id} == Ids(f) - removed;
  }
}
