/**
 What a completed collection leaves behind: entries that a fresh inventory reads
 unchanged, nothing invalid, nothing old above the budget, and so nothing for the
 same collection to do again.
 */
module CasSettled {
  import opened CasMaintenance
  import opened CasCollection
  import opened CasCache

  /** Invalid and to be swept, or older than the cutoff. */
  predicate Removable(e: Entry, cutoff: int, all: bool, evict: bool) {
    Swept(e, all, evict) || e.used < cutoff
  }

  /** A completed collection closes over dependents, justifies every removal and ends
      within budget or with only recent entries left. What the first pass leaves is evicted
      in the order of use up to the position where the budget is met, and no further. */
  lemma CollectedFacts(f: Files, order: seq<Entry>, limit: nat, cutoff: int, all: bool, evict: bool)
    requires InOrder(order, f)
    ensures var removed := Collected(f, order, limit, cutoff, all, evict);
            && Closed(order, removed)
            && AllJustified(order, removed, e => Removable(e, cutoff, all, evict))
            && Sweep(order, |order|, all, evict) <= removed
            && (evict && limit != 0 && !all ==>
                  || Retained(f, removed) <= limit
                  || forall i :: 0 <= i < |order| ==> order[i].id in removed || order[i].used >= cutoff)
            && (if evict && limit != 0 && !all
                then exists stop :: EvictsUpTo(f, order, 0, stop, Sweep(order, |order|, all, evict), removed, limit,
                  cutoff)
                else removed == Sweep(order, |order|, all, evict))
  {
    var own := e => Removable(e, cutoff, all, evict);
    var swept := Sweep(order, |order|, all, evict);
    SweepCloses(order, |order|, all, evict);
    SweepJustified(order, |order|, all, evict, own);
    if evict && limit != 0 && !all {
      EvictCloses(f, order, 0, swept, limit, cutoff);
      EvictJustified(f, order, 0, swept, limit, cutoff, own);
      EvictReachesBudget(f, order, 0, swept, limit, cutoff);
      var stop := EvictTakesAPrefix(f, order, 0, swept, limit, cutoff);
    }
  }

  /** A valid entry used since the cutoff goes only with an object it names. */
  lemma RecentGoesOnlyByCascade(f: Files, order: seq<Entry>, i: nat, limit: nat, cutoff: int, evict: bool)
    requires InOrder(order, f) && i < |order|
    requires order[i].used >= cutoff && !order[i].invalid
    requires order[i].id in Collected(f, order, limit, cutoff, false, evict)
    ensures exists owner :: owner in Collected(f, order, limit, cutoff, false, evict) && Names(order[i], owner)
  {
    CollectedFacts(f, order, limit, cutoff, false, evict);
    var removed, own := Collected(f, order, limit, cutoff, false, evict), e => Removable(e, cutoff, false, evict);
    assert Justified(order, removed, order[i].id, own);
    var k :| 0 <= k < |order| && order[k].id == order[i].id
      && (own(order[k]) || exists owner :: owner in removed && Names(order[k], owner));
    assert order[k] == order[i];
  }

  // ----- A fresh inventory of the survivors -----

  function Head(dir: Dir): string {
    if dir == Materialized then OBJECT else DirName(dir) + "-"
  }

  lemma IdSplits(p: Path)
    requires p.dir != Uses
    ensures Id(p) == Head(p.dir) + p.name && Id(p)[0] == Head(p.dir)[0]
  {}

  lemma SameHeadSameName(a: Path, b: Path)
    requires a.dir == b.dir != Uses && Id(a) == Id(b)
    ensures a == b
  {
    assert a.name == Id(a)[|Head(a.dir)|..] && b.name == Id(b)[|Head(a.dir)|..];
  }

  /** An identifier with an index file has no other file but its recency marker. */
  lemma IndexStandsAlone(p: Path, q: Path)
    requires p.dir in {Sources, Derivations} && Id(p) == Id(q) && p != q
    ensures q.dir == Uses && !Partial(q)
  {
    IdSplits(p);
    assert Head(p.dir)[0] != '.' && forall d :: d != Uses && Head(d)[0] == Head(p.dir)[0] ==> d == p.dir;
    if q.dir != Uses {
      IdSplits(q);
      if q.dir == p.dir {
        SameHeadSameName(p, q);
      }
    }
  }

  /** Before its index file is read an entry is valid; afterwards it keeps its names. */
  lemma {:induction false} IndexNames(paths: seq<Path>, f: Files, p: Path)
    requires forall q :: q in paths ==> q in f.nodes
    requires forall i, j :: 0 <= i < j < |paths| ==> paths[i] != paths[j]
    requires p.dir in {Sources, Derivations} && p in f.nodes && !Partial(p) && !Malformed(p, f.nodes[p])
    ensures var e := Gather(paths, f, Id(p));
            if p in paths then e.objects == f.nodes[p].named else e.objects == [] && !e.invalid
  {
    if paths != [] {
      var init, last := paths[..|paths| - 1], paths[|paths| - 1];
      IndexNames(init, f, p);
      assert paths == init + [last];
      if Id(last) == Id(p) && last != p {
        IndexStandsAlone(p, last);
      }
      assert p == last ==> p !in init;
    }
  }

  /** Reading the index again finds the same objects. */
  predicate SameDigests(f: Files, kept: Files, p: Path)
    requires p in f.nodes
  {
    p.dir in {Sources, Derivations} && !Partial(p) && !Malformed(p, f.nodes[p]) ==>
      forall k :: 0 <= k < |f.nodes[p].named| ==>
        HasDigest(kept, f.nodes[p].named[k]) == HasDigest(f, f.nodes[p].named[k])
  }

  lemma DigestSurvives(f: Files, e: Entry, k: nat, removed: set<string>)
    requires ValidFiles(f) && k < |e.objects|
    requires forall id :: id in removed ==> !Names(e, id)
    ensures HasDigest(Remaining(f, removed), e.objects[k]) == HasDigest(f, e.objects[k])
  {
    var path := Path(Objects, e.objects[k]);
    assert Id(path) == OBJECT + e.objects[k];
    assert Names(e, Id(path));
    assert path !in PathsOf(f, removed);
  }

  lemma IndexEntry(f: Files, order: seq<Entry>, p: Path) returns (i: nat)
    requires InOrder(order, f) && p in f.paths
    requires p.dir in {Sources, Derivations} && !Partial(p) && !Malformed(p, f.nodes[p])
    ensures i < |order| && order[i].id == Id(p) && order[i].objects == f.nodes[p].named
  {
    hide Malformed, Listed, Ordered;
    IndexNames(f.paths, f, p);
    EntryFacts(f, Id(p));
    assert Id(p) in Ids(f);
    i :| 0 <= i < |order| && order[i].id == Id(p);
  }

  lemma SurvivorsKeepTheirDigests(f: Files, order: seq<Entry>, removed: set<string>, p: Path)
    requires InOrder(order, f) && Closed(order, removed)
    requires p in f.paths && Id(p) !in removed
    ensures SameDigests(f, Remaining(f, removed), p)
  {
    if p.dir in {Sources, Derivations} && !Partial(p) && !Malformed(p, f.nodes[p]) {
      hide Remaining, HasDigest, Malformed, Names, InOrder;
      var i := IndexEntry(f, order, p);
      forall k | 0 <= k < |f.nodes[p].named|
        ensures HasDigest(Remaining(f, removed), f.nodes[p].named[k]) == HasDigest(f, f.nodes[p].named[k])
      {
        DigestSurvives(f, order[i], k, removed);
      }
    }
  }

  lemma {:induction false} GatherKept(paths: seq<Path>, f: Files, kept: Files, gone: set<Path>, id: string)
    requires forall p :: p in paths ==> p in f.nodes
    requires forall p :: p in paths && p !in gone ==> p in kept.nodes && kept.nodes[p] == f.nodes[p]
    requires forall p :: p in paths && Id(p) == id ==> p !in gone && SameDigests(f, kept, p)
    requires forall p :: p in Filter(paths, gone) ==> p in kept.nodes
    ensures Gather(Filter(paths, gone), kept, id) == Gather(paths, f, id)
  {
    if paths != [] {
      var init, last := paths[..|paths| - 1], paths[|paths| - 1];
      assert paths == init + [last];
      FilterFacts(init, gone);
      GatherKept(init, f, kept, gone, id);
      if last in gone {
        assert Filter(paths, gone) == Filter(init, gone);
      } else {
        assert Filter(paths, gone) == Filter(init, gone) + [last];
        assert Filter(paths, gone)[..|Filter(init, gone)|] == Filter(init, gone);
        if Id(last) == id {
          GrowSame(Gather(init, f, id), f, kept, last);
        }
      }
    }
  }

  lemma GrowSame(e: Entry, f: Files, kept: Files, p: Path)
    requires p in f.nodes && p in kept.nodes && kept.nodes[p] == f.nodes[p] && SameDigests(f, kept, p)
    ensures Grow(e, kept, p) == Grow(e, f, p)
  {}

  /** Every surviving entry reads the same in a fresh inventory. */
  lemma SurvivorsReadTheSame(f: Files, order: seq<Entry>, removed: set<string>, id: string)
    requires InOrder(order, f) && Closed(order, removed) && id !in removed
    ensures ValidFiles(Remaining(f, removed)) && EntryOf(Remaining(f, removed), id) == EntryOf(f, id)
  {
    var kept, gone := Remaining(f, removed), PathsOf(f, removed);
    RemainingIds(f, removed);
    FilterFacts(f.paths, gone);
    forall p | p in f.paths && Id(p) == id ensures SameDigests(f, kept, p) {
      SurvivorsKeepTheirDigests(f, order, removed, p);
    }
    GatherKept(f.paths, f, kept, gone, id);
  }

  lemma {:induction false} NothingToSweep(entries: seq<Entry>, n: nat, all: bool, evict: bool)
    requires n <= |entries| && forall i :: 0 <= i < |entries| ==> !Swept(entries[i], all, evict)
    ensures Sweep(entries, n, all, evict) == {}
  {
    if n > 0 {
      NothingToSweep(entries, n - 1, all, evict);
    }
  }

  lemma {:induction false} NothingToEvict(f: Files, entries: seq<Entry>, n: nat, removed: set<string>, limit: int,
                                          cutoff: int)
    requires ValidFiles(f) && n <= |entries|
    requires Retained(f, removed) <= limit || forall i :: 0 <= i < |entries| ==> entries[i].used >= cutoff
    ensures Evict(f, entries, n, removed, limit, cutoff) == removed
    decreases |entries| - n
  {
    if n < |entries| && Retained(f, removed) > limit {
      NothingToEvict(f, entries, n + 1, removed, limit, cutoff);
    }
  }

  /** Collecting again at the same clock removes nothing. */
  lemma CollectionIsIdempotent(f: Files, order: seq<Entry>, anew: seq<Entry>, limit: nat, cutoff: int, all: bool,
                               evict: bool)
    requires InOrder(order, f) && InOrder(anew, Remaining(f, Collected(f, order, limit, cutoff, all, evict)))
    ensures Collected(Remaining(f, Collected(f, order, limit, cutoff, all, evict)), anew, limit, cutoff, all, evict)
            == {}
  {
    var removed := Collected(f, order, limit, cutoff, all, evict);
    var kept := Remaining(f, removed);
    CollectedFacts(f, order, limit, cutoff, all, evict);
    RemainingIds(f, removed);
    RecountAgrees(f, removed);
    forall k | 0 <= k < |order| && Swept(order[k], all, evict) ensures order[k].id in removed {
      SweepIsChosen(order, |order|, all, evict);
      assert Chosen(order, |order|, all, evict, order[k].id);
    }
    forall i | 0 <= i < |anew|
      ensures !Swept(anew[i], all, evict)
      ensures exists k :: 0 <= k < |order| && order[k] == anew[i] && order[k].id !in removed
    {
      SurvivorsReadTheSame(f, order, removed, anew[i].id);
      var k :| 0 <= k < |order| && order[k].id == anew[i].id;
      assert order[k] == anew[i];
    }
    NothingToSweep(anew, |anew|, all, evict);
    if evict && limit != 0 && !all {
      assert Ids(kept) - {} == Ids(kept);
      NothingToEvict(kept, anew, 0, {}, limit, cutoff);
    }
  }

  /** A dry run proposes exactly what the real run then does; the real run leaves a
      cache whose fresh count is the reported one, and a second run has nothing to do. */
  method PreviewPrunePrune(c: Cache, limit: nat, cutoff: int, all: bool, evict: bool)
    returns (proposed: int, reclaimed: int, again: int, reported: Usage)
    requires c.Valid()
    modifies c
    ensures c.Valid() && proposed == reclaimed && again == 0
    ensures reported == Counted(c.files, Ids(c.files)) == c.after
    ensures Counted(old(c.files), Ids(old(c.files))).retained + Counted(old(c.files), Ids(old(c.files))).work ==
            reported.retained + reported.work + reclaimed
  {
    hide Counted, Ids, Enumerates, Ordered, Collected, Keep, PathsOf;
    ghost var f := c.files;
    var ok0, before0, order0 := c.Collect(limit, cutoff, all, true, evict, {});
    proposed := c.reclaimed;
    var ok1, before1, order1 := c.Collect(limit, cutoff, all, false, evict, {});
    OneOrder(order0, order1, f);
    reclaimed, reported := c.reclaimed, c.after;
    ghost var removed := c.removed;
    RecountAgrees(f, removed);
    assert c.files == Remaining(f, removed);
    ghost var kept := c.files;
    var ok2, before2, order2 := c.Collect(limit, cutoff, all, false, evict, {});
    CollectionIsIdempotent(f, order1, order2, limit, cutoff, all, evict);
    NothingRemoved(kept);
    again := c.reclaimed;
  }

  lemma NothingRemoved(f: Files)
    requires ValidFiles(f)
    ensures PathsOf(f, {}) == {} && Keep(f, {}) == f && Ids(f) - {} == Ids(f)
  {
    KeepAll(f);
  }
}
