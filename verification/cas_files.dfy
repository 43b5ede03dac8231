/**
 The collector's decisions read off the cache directory: which files make an entry,
 when they are intact, when it was last used, how much it holds, and from that what a
 collection removes (internal/cas/maintenance.go).
 */
module CasFiles {
  import opened CasMaintenance
  import opened CasCollection
  import opened CasCache
  import opened CasSettled
  import Pairs

  // ----- One file -----

  predicate Unfinished(name: string) {
    ".import-" <= name || ".stemma-" <= name
  }

  predicate Digest(s: string) {
    |s| == 64 && forall i :: 0 <= i < |s| ==> s[i] in "0123456789abcdef"
  }

  predicate Served(f: Files, digest: string) {
    Digest(digest) && Path(Objects, digest) in f.nodes && f.nodes[Path(Objects, digest)].served
  }

  /** What a file of each directory must be. */
  predicate Sound(f: Files, p: Path)
    requires p in f.nodes
  {
    var n := f.nodes[p];
    match p.dir
    case Work => false
    case Uses => !Unfinished(p.name)
    case Objects => Digest(p.name) && n.regular
    case Materialized => Digest(p.name) && n.directory
    case Plugins => Digest(p.name) && n.directory && n.complete
    case _ => Digest(p.name) && n.regular && n.decodes && forall k :: 0 <= k < |n.named| ==> Served(f, n.named[k])
  }

  lemma DigestIsValid(s: string)
    ensures Digest(s) <==> ValidDigest(s)
    ensures Digest(s) ==> !Unfinished(s)
  {
    if Digest(s) && Unfinished(s) {
      assert s[0] == '.';
    }
  }

  lemma ServedIsHas(f: Files, digest: string)
    ensures Served(f, digest) <==> HasDigest(f, digest)
  {
    DigestIsValid(digest);
  }

  // ----- The files of an entry -----

  /** An entry is an object with its tree, an index, an installation or abandoned work,
      each with the recency marker that carries its identifier. */
  lemma FilesOfAnEntry(p: Path, name: string)
    ensures Id(p) == "objects-" + name <==>
            p in {Path(Objects, name), Path(Materialized, name), Path(Uses, "objects-" + name)}
    ensures Id(p) == "sources-" + name <==> p in {Path(Sources, name), Path(Uses, "sources-" + name)}
    ensures Id(p) == "derivations-" + name <==> p in {Path(Derivations, name), Path(Uses, "derivations-" + name)}
    ensures Id(p) == "plugins-" + name <==> p in {Path(Plugins, name), Path(Uses, "plugins-" + name)}
    ensures Id(p) == "work-" + name <==> p in {Path(Work, name), Path(Uses, "work-" + name)}
    ensures p.dir == Uses ==> Id(p) == p.name
  {
    assert Head(Objects) == Head(Materialized) == "objects-" && Head(Sources) == "sources-";
    assert Head(Derivations) == "derivations-" && Head(Plugins) == "plugins-" && Head(Work) == "work-";
    if p.dir != Uses {
      forall dir | dir != Uses {
        IdHasHead(p, dir, name);
      }
      hide Id, Head;
    }
  }

  lemma IdHasHead(p: Path, dir: Dir, name: string)
    requires p.dir != Uses && dir != Uses
    ensures Id(p) == Head(dir) + name <==>
            p.name == name && (p.dir == dir || (p.dir in {Objects, Materialized} && dir in {Objects, Materialized}))
  {
    IdSplits(p);
    HeadsDiffer(p.dir, dir);
    hide Id, Head;
    if Id(p) == Head(dir) + name {
      assert (Head(dir) + name)[0] == Head(dir)[0];
      assert (Head(dir) + name)[|Head(dir)|..] == name && (Head(p.dir) + p.name)[|Head(p.dir)|..] == p.name;
    }
  }

  lemma HeadsDiffer(a: Dir, b: Dir)
    requires a != Uses && b != Uses
    ensures Head(a) != "" && Head(b) != ""
    ensures Head(a)[0] == Head(b)[0] <==> Head(a) == Head(b)
    ensures Head(a) == Head(b) <==> a == b || (a in {Objects, Materialized} && b in {Objects, Materialized})
  {
    assert Head(Objects)[0] == 'o' && Head(Sources)[0] == 's' && Head(Derivations)[0] == 'd';
    assert Head(Plugins)[0] == 'p' && Head(Work)[0] == 'w' && Head(Materialized) == Head(Objects);
  }

  /** Every file of the entry is sound, and one of them is more than its recency marker. */
  predicate Intact(f: Files, id: string)
    requires ValidFiles(f)
  {
    && (forall p :: p in f.paths && Id(p) == id ==> Sound(f, p))
    && (exists p :: p in f.paths && Id(p) == id && p.dir != Uses)
  }

  lemma GrowJudges(e: Entry, f: Files, p: Path)
    requires p in f.nodes && (p.dir in {Sources, Derivations} ==> !e.invalid)
    ensures Grow(e, f, p).invalid <==> e.invalid || !Sound(f, p)
  {
    DigestIsValid(p.name);
    forall d: string {
      ServedIsHas(f, d);
    }
  }

  lemma {:induction false} GatherJudges(paths: seq<Path>, f: Files, id: string)
    requires forall p :: p in paths ==> p in f.nodes
    requires forall i, j :: 0 <= i < j < |paths| ==> paths[i] != paths[j]
    ensures Gather(paths, f, id).invalid <==> exists p :: p in paths && Id(p) == id && !Sound(f, p)
  {
    if paths != [] {
      hide Grow, Sound, Id;
      var init, last := paths[..|paths| - 1], paths[|paths| - 1];
      assert paths == init + [last] && last !in init;
      GatherJudges(init, f, id);
      if Id(last) == id {
        if last.dir in {Sources, Derivations} {
          forall q | q in init && Id(q) == id ensures Sound(f, q) {
            IndexStandsAlone(last, q);
            MarkerIsSound(f, q);
          }
        }
        GrowJudges(Gather(init, f, id), f, last);
      }
    }
  }

  lemma MarkerIsSound(f: Files, p: Path)
    requires p in f.nodes && p.dir == Uses && !Partial(p)
    ensures Sound(f, p)
  {}

  /** The collector takes an entry for valid exactly when its files are intact. */
  lemma InvalidIsNotIntact(f: Files, id: string)
    requires ValidFiles(f) && id in Ids(f)
    ensures EntryOf(f, id).invalid <==> !Intact(f, id)
  {
    hide Grow, Gather, Id, Sound;
    GatherJudges(f.paths, f, id);
    GatherFacts(f.paths, f, id);
    var e := Gather(f.paths, f, id);
    if exists p :: p in f.paths && Id(p) == id && p.dir != Uses {
      var p :| p in f.paths && Id(p) == id && p.dir != Uses;
      assert p in e.paths;
    } else {
      MarkerAlone(f, id);
    }
  }

  lemma GrowPaths(e: Entry, f: Files, p: Path)
    requires p in f.nodes
    ensures Grow(e, f, p).paths == e.paths + [p]
  {}

  /** Without another file, the entry's only path is its marker. */
  lemma {:induction false} GatheredOnce(paths: seq<Path>, f: Files, id: string)
    requires forall p :: p in paths ==> p in f.nodes
    requires forall i, j :: 0 <= i < j < |paths| ==> paths[i] != paths[j]
    requires forall p :: p in paths && Id(p) == id ==> p.dir == Uses
    ensures Gather(paths, f, id).paths == if Path(Uses, id) in paths then [Path(Uses, id)] else []
  {
    if paths != [] {
      var init, last := paths[..|paths| - 1], paths[|paths| - 1];
      assert Id(last) == id && last.dir == Uses ==> last == Path(Uses, id);
      assert Id(Path(Uses, id)) == id;
      hide Grow, Id;
      assert paths == init + [last] && last !in init;
      GatheredOnce(init, f, id);
      GrowPaths(Gather(init, f, id), f, last);
    }
  }

  lemma MarkerAlone(f: Files, id: string)
    requires ValidFiles(f) && id in Ids(f)
    requires forall p :: p in f.paths && Id(p) == id ==> p.dir == Uses
    ensures Gather(f.paths, f, id).paths == [Path(Uses, id)]
  {
    GatheredOnce(f.paths, f, id);
    var p :| p in f.paths && Id(p) == id;
    assert p == Path(Uses, id);
  }

  // ----- Its last use -----

  /** The time of the recency marker, if there is one to read; otherwise the beginning of time. */
  function LastUse(f: Files, id: string): nat
    requires ValidFiles(f)
  {
    var marker := Path(Uses, id);
    if marker in f.paths && f.nodes[marker].regular && !Unfinished(id) then f.nodes[marker].modified else 0
  }

  lemma GrowDates(e: Entry, f: Files, p: Path)
    requires p in f.nodes
    ensures Grow(e, f, p).used ==
            if p == Path(Uses, Id(p)) && f.nodes[p].regular && !Unfinished(Id(p)) then f.nodes[p].modified else e.used
  {
    hide PathUsage, Malformed, HasDigest;
  }

  lemma {:induction false} GatherDates(paths: seq<Path>, f: Files, id: string)
    requires forall p :: p in paths ==> p in f.nodes
    requires forall i, j :: 0 <= i < j < |paths| ==> paths[i] != paths[j]
    ensures var marker := Path(Uses, id);
            Gather(paths, f, id).used ==
            if marker in paths && f.nodes[marker].regular && !Unfinished(id) then f.nodes[marker].modified else 0
  {
    if paths != [] {
      var init, last := paths[..|paths| - 1], paths[|paths| - 1];
      hide Grow, Id;
      assert paths == init + [last] && last !in init;
      GatherDates(init, f, id);
      GrowDates(Gather(init, f, id), f, last);
    }
  }

  lemma UsedIsTheMarker(f: Files, id: string)
    requires ValidFiles(f)
    ensures EntryOf(f, id).used == LastUse(f, id)
  {
    GatherDates(f.paths, f, id);
  }

  // ----- The objects it names -----

  predicate ReadableIndex(f: Files, p: Path)
    requires ValidFiles(f)
  {
    p in f.paths && p.dir in {Sources, Derivations} && Digest(p.name) && f.nodes[p].regular
  }

  /** An index of the entry names something that was removed. */
  ghost predicate NamesRemoved(f: Files, id: string, removed: set<string>)
    requires ValidFiles(f)
  {
    exists p, k :: ReadableIndex(f, p) && Id(p) == id && 0 <= k < |f.nodes[p].named|
      && "objects-" + f.nodes[p].named[k] in removed
  }

  lemma {:induction false} OnlyAnIndexNames(paths: seq<Path>, f: Files, id: string)
    requires forall p :: p in paths ==> p in f.nodes
    ensures Gather(paths, f, id).objects != [] ==>
            exists p :: p in paths && Id(p) == id && p.dir in {Sources, Derivations} && Digest(p.name)
              && f.nodes[p].regular
  {
    if paths != [] {
      var init, last := paths[..|paths| - 1], paths[|paths| - 1];
      assert paths == init + [last];
      DigestIsValid(last.name);
      OnlyAnIndexNames(init, f, id);
    }
  }

  lemma NamesItsIndex(f: Files, p: Path)
    requires ValidFiles(f) && ReadableIndex(f, p)
    ensures EntryOf(f, Id(p)).objects == f.nodes[p].named
  {
    hide Gather;
    DigestIsValid(p.name);
    IndexNames(f.paths, f, p);
  }

  lemma NamesRemovedIsNames(f: Files, id: string, removed: set<string>)
    requires ValidFiles(f)
    ensures NamesRemoved(f, id, removed) <==> exists owner :: owner in removed && Names(EntryOf(f, id), owner)
  {
    hide Gather, Id;
    var e := EntryOf(f, id);
    OnlyAnIndexNames(f.paths, f, id);
    if NamesRemoved(f, id, removed) {
      var p, k :| ReadableIndex(f, p) && Id(p) == id && 0 <= k < |f.nodes[p].named|
        && "objects-" + f.nodes[p].named[k] in removed;
      NamesItsIndex(f, p);
      assert Names(e, "objects-" + f.nodes[p].named[k]);
    }
    if exists owner :: owner in removed && Names(e, owner) {
      var owner :| owner in removed && Names(e, owner);
      var k :| 0 <= k < |e.objects| && OBJECT + e.objects[k] == owner;
      var p :| p in f.paths && Id(p) == id && p.dir in {Sources, Derivations} && Digest(p.name) && f.nodes[p].regular;
      NamesItsIndex(f, p);
      assert ReadableIndex(f, p) && "objects-" + f.nodes[p].named[k] in removed;
    }
  }

  // ----- What a collection removes -----

  predicate Abandoned(p: Path) {
    p.dir == Work || Unfinished(p.name)
  }

  predicate HoldsAbandoned(f: Files, id: string) {
    exists p :: p in f.paths && Id(p) == id && Abandoned(p)
  }

  lemma GrowTemporary(e: Entry, f: Files, p: Path)
    requires p in f.nodes
    ensures Grow(e, f, p).temporary <==> e.temporary || Abandoned(p)
  {
    hide PathUsage, Malformed, HasDigest, Id;
  }

  lemma {:induction false} GatherTemporary(paths: seq<Path>, f: Files, id: string)
    requires forall p :: p in paths ==> p in f.nodes
    ensures Gather(paths, f, id).temporary <==> exists p :: p in paths && Id(p) == id && Abandoned(p)
  {
    if paths != [] {
      var init, last := paths[..|paths| - 1], paths[|paths| - 1];
      hide Grow, Id;
      assert paths == init + [last];
      GatherTemporary(init, f, id);
      GrowTemporary(Gather(init, f, id), f, last);
    }
  }

  lemma TemporaryHoldsAbandoned(f: Files, id: string)
    requires ValidFiles(f)
    ensures EntryOf(f, id).temporary <==> HoldsAbandoned(f, id)
  {
    GatherTemporary(f.paths, f, id);
  }

  /** Nothing abandoned is sound. */
  lemma AbandonedIsNotIntact(f: Files, id: string)
    requires ValidFiles(f) && HoldsAbandoned(f, id)
    ensures !Intact(f, id)
  {
    var p :| p in f.paths && Id(p) == id && Abandoned(p);
    DigestIsValid(p.name);
  }

  lemma SweptOverFiles(f: Files, id: string, all: bool, evict: bool)
    requires ValidFiles(f) && id in Ids(f)
    ensures Swept(EntryOf(f, id), all, evict) <==>
            all || HoldsAbandoned(f, id) || (evict && !Intact(f, id))
  {
    hide Gather, Id, Intact, HoldsAbandoned;
    InvalidIsNotIntact(f, id);
    TemporaryHoldsAbandoned(f, id);
    if HoldsAbandoned(f, id) {
      AbandonedIsNotIntact(f, id);
    }
  }

  // ----- What it holds -----

  /** The size of a finished file of these entries in these directories. */
  function Kept(nodes: map<Path, Node>, ids: set<string>, dirs: set<Dir>): Path -> int {
    p => if p in nodes && Id(p) in ids && p.dir in dirs && !Unfinished(p.name) then nodes[p].size else 0
  }

  function Whole(nodes: map<Path, Node>, ids: set<string>): Path -> int {
    p => if p in nodes && Id(p) in ids then nodes[p].size else 0
  }

  lemma FileUsage(p: Path, nodes: map<Path, Node>, ids: set<string>)
    requires p in nodes
    ensures var usage := if Id(p) in ids then PathUsage(p, nodes[p]) else NONE;
            && usage.objects == Kept(nodes, ids, {Objects})(p)
            && usage.materialized == Kept(nodes, ids, {Materialized, Plugins})(p)
            && usage.metadata == Kept(nodes, ids, {Sources, Derivations, Uses})(p)
            && usage.retained == Kept(nodes, ids, {Objects, Materialized, Plugins, Sources, Derivations, Uses})(p)
            && usage.retained + usage.work == Whole(nodes, ids)(p)
  {
    hide Id;
  }

  lemma {:induction false} CountIsSum(paths: seq<Path>, nodes: map<Path, Node>, ids: set<string>)
    requires forall p :: p in paths ==> p in nodes
    ensures var usage := Count(paths, nodes, ids);
            && usage.objects == Pairs.Sum(paths, Kept(nodes, ids, {Objects}))
            && usage.materialized == Pairs.Sum(paths, Kept(nodes, ids, {Materialized, Plugins}))
            && usage.metadata == Pairs.Sum(paths, Kept(nodes, ids, {Sources, Derivations, Uses}))
            && usage.retained ==
               Pairs.Sum(paths, Kept(nodes, ids, {Objects, Materialized, Plugins, Sources, Derivations, Uses}))
            && usage.retained + usage.work == Pairs.Sum(paths, Whole(nodes, ids))
  {
    if paths != [] {
      hide Id, Kept, Whole, PathUsage;
      CountIsSum(paths[..|paths| - 1], nodes, ids);
      FileUsage(paths[|paths| - 1], nodes, ids);
    }
  }

  function Finished(f: Files, ids: set<string>): int {
    Pairs.Sum(f.paths, Kept(f.nodes, ids, {Objects, Materialized, Plugins, Sources, Derivations, Uses}))
  }

  lemma RetainedIsFinished(f: Files, removed: set<string>)
    requires ValidFiles(f)
    ensures Retained(f, removed) == Finished(f, Ids(f) - removed)
    ensures forall p :: p in f.paths ==> Id(p) in Ids(f)
  {
    CountIsSum(f.paths, f.nodes, Ids(f) - removed);
  }

  /** The reported usage of the whole cache counts every file once, by its directory. */
  lemma UsageIsTheFiles(f: Files)
    requires ValidFiles(f)
    ensures var usage, ids := Counted(f, Ids(f)), Ids(f);
            && usage.objects == Pairs.Sum(f.paths, Kept(f.nodes, ids, {Objects}))
            && usage.materialized == Pairs.Sum(f.paths, Kept(f.nodes, ids, {Materialized, Plugins}))
            && usage.metadata == Pairs.Sum(f.paths, Kept(f.nodes, ids, {Sources, Derivations, Uses}))
            && usage.retained == Finished(f, ids)
            && usage.retained + usage.work == Pairs.Sum(f.paths, Whole(f.nodes, ids))
            && (forall p :: p in f.paths ==> Id(p) in ids && Whole(f.nodes, ids)(p) == f.nodes[p].size)
  {
    CountIsSum(f.paths, f.nodes, Ids(f));
  }

  // ----- The laws of a collection, over files -----

  /** The reasons the policy has for an entry itself. */
  predicate Doomed(f: Files, id: string, all: bool, evict: bool)
    requires ValidFiles(f)
  {
    all || HoldsAbandoned(f, id) || (evict && !Intact(f, id))
  }

  lemma PositionOf(f: Files, order: seq<Entry>, id: string) returns (i: nat)
    requires InOrder(order, f) && id in Ids(f)
    ensures i < |order| && order[i].id == id && order[i] == EntryOf(f, id) && order[i].used == LastUse(f, id)
  {
    i :| 0 <= i < |order| && order[i].id == id;
    UsedIsTheMarker(f, id);
  }

  /** Everything doomed goes, and every index that names something removed. Whatever else
      goes had its last use before the cutoff, and only an eviction takes it. In particular
      an intact entry whose marker was written at or after the cutoff stays, unless an
      object it names goes. */
  lemma WhatGoes(f: Files, order: seq<Entry>, id: string, limit: nat, cutoff: int, all: bool, evict: bool)
    requires InOrder(order, f) && id in Ids(f)
    ensures var removed := Collected(f, order, limit, cutoff, all, evict);
            && (Doomed(f, id, all, evict) || NamesRemoved(f, id, removed) ==> id in removed)
            && (id in removed ==>
                  || Doomed(f, id, all, evict) || NamesRemoved(f, id, removed)
                  || (evict && limit != 0 && LastUse(f, id) < cutoff))
  {
    hide Gather, Id, Ids, Swept, NamesRemoved, Doomed, LastUse, EntryOf, Sweep, EvictedUpTo, Evict, Ordered,
      Enumerates, Names;
    var removed := Collected(f, order, limit, cutoff, all, evict);
    var swept := Sweep(order, |order|, all, evict);
    var i := PositionOf(f, order, id);
    DoomedIsSwept(f, id, all, evict);
    NamesRemovedIsNames(f, id, removed);
    SweepIsChosen(order, |order|, all, evict);
    assert Swept(order[i], all, evict) ==> Chosen(order, |order|, all, evict, id);
    CollectedFacts(f, order, limit, cutoff, all, evict);
    if id in swept {
      SweptOrNames(f, order, id, all, evict);
    } else if id in removed {
      var k, stop := Evictee(f, order, id, limit, cutoff, evict);
    }
  }

  lemma DoomedIsSwept(f: Files, id: string, all: bool, evict: bool)
    requires ValidFiles(f) && id in Ids(f)
    ensures Swept(EntryOf(f, id), all, evict) <==> Doomed(f, id, all, evict)
  {
    hide Gather, Id, Ids, Swept, Intact, HoldsAbandoned, EntryOf;
    SweptOverFiles(f, id, all, evict);
  }

  lemma SweptOrNames(f: Files, order: seq<Entry>, id: string, all: bool, evict: bool)
    requires InOrder(order, f) && id in Sweep(order, |order|, all, evict)
    ensures Swept(EntryOf(f, id), all, evict)
            || exists owner :: owner in Sweep(order, |order|, all, evict) && Names(EntryOf(f, id), owner)
  {
    hide Swept, EntryOf, Sweep, Names, Ids;
    var own := e => Swept(e, all, evict);
    SweepJustified(order, |order|, all, evict, own);
    assert Justified(order, Sweep(order, |order|, all, evict), id, own);
  }

  /** What the first pass leaves and nothing removed is named by went in its own turn. */
  lemma Evictee(f: Files, order: seq<Entry>, id: string, limit: nat, cutoff: int, evict: bool)
    returns (k: nat, stop: nat)
    requires InOrder(order, f) && id in Collected(f, order, limit, cutoff, false, evict)
    requires id !in Sweep(order, |order|, false, evict)
    ensures evict && limit != 0 && k < stop && k < |order|
    ensures (exists owner :: owner in Collected(f, order, limit, cutoff, false, evict) && Names(EntryOf(f, id), owner))
            || (order[k].id == id && order[k] == EntryOf(f, id) && LastUse(f, id) == order[k].used < cutoff)
    ensures EvictsUpTo(f, order, 0, stop, Sweep(order, |order|, false, evict),
              Collected(f, order, limit, cutoff, false, evict), limit, cutoff)
  {
    hide EntryOf, Sweep, Names, Ids, LastUse, EvictedUpTo, Retained, Evict;
    var swept, removed := Sweep(order, |order|, false, evict), Collected(f, order, limit, cutoff, false, evict);
    stop := EvictTakesAPrefix(f, order, 0, swept, limit, cutoff);
    k :| 0 <= k < stop && EvictedWith(order, 0, k, swept, cutoff, id);
    EvictedGoes(f, order, k, stop, swept, limit, cutoff);
    UsedIsTheMarker(f, id);
    assert id != order[k].id ==> Names(EntryOf(f, id), order[k].id);
  }

  /** What is evicted for its own sake is removed in the end. */
  lemma EvictedGoes(f: Files, order: seq<Entry>, k: nat, stop: nat, swept: set<string>, limit: int, cutoff: int)
    requires ValidFiles(f) && k < stop && k < |order| && Evicted(order, 0, k, swept, cutoff)
    requires EvictsUpTo(f, order, 0, stop, swept, Evict(f, order, 0, swept, limit, cutoff), limit, cutoff)
    ensures order[k].id in Evict(f, order, 0, swept, limit, cutoff)
  {
    hide EvictedUpTo, Retained, Evict;
  }

  /** The byte order of two identifiers: a proper prefix, or the smaller at the first difference. */
  ghost predicate Precedes(a: string, b: string) {
    exists n: nat :: n <= |a| && n < |b| && a[..n] == b[..n] && (n == |a| || a[n] < b[n])
  }

  lemma {:induction false} LessPrecedes(a: string, b: string)
    requires Less(a, b)
    ensures Precedes(a, b)
  {
    if a == "" {
      assert a[..0] == b[..0];
    } else if a[0] < b[0] {
      assert a[..0] == b[..0];
    } else {
      LessPrecedes(a[1..], b[1..]);
      var n: nat :| n <= |a[1..]| && n < |b[1..]| && a[1..][..n] == b[1..][..n]
        && (n == |a[1..]| || a[1..][n] < b[1..][n]);
      assert a[..n + 1] == [a[0]] + a[1..][..n] == b[..n + 1];
    }
  }

  /** Whatever an eviction spares was used later than what it takes for its own sake, or at
      the same time and has the greater identifier. */
  lemma OldestGoFirst(f: Files, order: seq<Entry>, gone: string, spared: string, limit: nat, cutoff: int, evict: bool)
    requires InOrder(order, f) && gone in Ids(f) && spared in Ids(f)
    requires var removed := Collected(f, order, limit, cutoff, false, evict);
             && gone in removed && spared !in removed
             && !Doomed(f, gone, false, evict) && !NamesRemoved(f, gone, removed)
    ensures LastUse(f, gone) < LastUse(f, spared)
            || (LastUse(f, gone) == LastUse(f, spared) && Precedes(gone, spared))
  {
    hide EntryOf, Sweep, Names, Ids, LastUse, EvictedUpTo, Retained, Evict, Doomed, NamesRemoved, Swept, Precedes, Less,
      EvictedWith, Enumerates;
    var removed := Collected(f, order, limit, cutoff, false, evict);
    NamesRemovedIsNames(f, gone, removed);
    DoomedIsSwept(f, gone, false, evict);
    NotSwept(f, order, gone, limit, cutoff, evict);
    var k, stop := Evictee(f, order, gone, limit, cutoff, evict);
    var j := PositionOf(f, order, spared);
    if k < j {
      assert Earlier(order[k], order[j]);
      if !(order[k].used < order[j].used) {
        LessPrecedes(gone, spared);
      }
    }
  }

  lemma NotSwept(f: Files, order: seq<Entry>, id: string, limit: nat, cutoff: int, evict: bool)
    requires InOrder(order, f) && !Swept(EntryOf(f, id), false, evict)
    requires !exists owner :: owner in Collected(f, order, limit, cutoff, false, evict) && Names(EntryOf(f, id), owner)
    ensures id !in Sweep(order, |order|, false, evict)
  {
    hide EntryOf, Sweep, Names, Ids, EvictedUpTo, Retained, Evict, Swept, InOrder;
    CollectedFacts(f, order, limit, cutoff, false, evict);
    if id in Sweep(order, |order|, false, evict) {
      SweptOrNames(f, order, id, false, evict);
    }
  }

  /** An eviction ends within the limit or with recent entries only. */
  lemma WithinLimit(f: Files, order: seq<Entry>, limit: nat, cutoff: int)
    requires InOrder(order, f) && limit != 0
    ensures var removed := Collected(f, order, limit, cutoff, false, true);
            || Finished(f, Ids(f) - removed) <= limit
            || forall id :: id in Ids(f) - removed ==> LastUse(f, id) >= cutoff
  {
    hide EntryOf, Sweep, Names, LastUse, EvictedUpTo, Retained, Evict, Swept, Finished, Ids;
    var removed := Collected(f, order, limit, cutoff, false, true);
    CollectedFacts(f, order, limit, cutoff, false, true);
    RetainedIsFinished(f, removed);
    if Retained(f, removed) > limit {
      forall id | id in Ids(f) - removed ensures LastUse(f, id) >= cutoff {
        var i := PositionOf(f, order, id);
      }
    }
  }

  lemma {:induction false} LastEviction(entries: seq<Entry>, stop: nat, swept: set<string>, cutoff: int)
    returns (k: nat)
    requires stop <= |entries| && EvictedUpTo(entries, 0, stop, swept, cutoff) != swept
    ensures k < stop && Evicted(entries, 0, k, swept, cutoff)
    ensures EvictedUpTo(entries, 0, stop, swept, cutoff) ==
            Cascade(entries, EvictedUpTo(entries, 0, k, swept, cutoff), entries[k].id)
  {
    hide Cascade;
    k := stop - 1;
    if !Evicted(entries, 0, k, swept, cutoff) {
      k := LastEviction(entries, stop - 1, swept, cutoff);
    }
  }

  /** No eviction takes more than it must: with the entry evicted last, and the indexes that
      went because they name it, the cache would still be over the limit. */
  lemma NoMoreThanNeeded(f: Files, order: seq<Entry>, limit: nat, cutoff: int)
    returns (last: string, along: set<string>)
    requires InOrder(order, f) && limit != 0
    requires Collected(f, order, limit, cutoff, false, true) != Sweep(order, |order|, false, true)
    ensures var removed := Collected(f, order, limit, cutoff, false, true);
            && last in removed && LastUse(f, last) < cutoff && along <= removed
            && (forall id :: id in along ==> NamesRemoved(f, id, {last}))
            && Finished(f, Ids(f) - (removed - {last} - along)) > limit
  {
    hide EntryOf, Sweep, Names, LastUse, EvictedUpTo, Retained, Evict, Swept, Finished, Ids, NamesRemoved, Ordered;
    var swept, removed := Sweep(order, |order|, false, true), Collected(f, order, limit, cutoff, false, true);
    var stop := EvictTakesAPrefix(f, order, 0, swept, limit, cutoff);
    var k := LastEviction(order, stop, swept, cutoff);
    var before := EvictedUpTo(order, 0, k, swept, cutoff);
    last := order[k].id;
    along := Dependents(order, last) - before - {last};
    UsedIsTheMarker(f, last);
    RetainedIsFinished(f, before);
    assert removed - {last} - along == before;
    forall id | id in along ensures NamesRemoved(f, id, {last}) {
      NamesRemovedIsNames(f, id, {last});
    }
  }

  /** Intact, used since the cutoff, and naming nothing that was removed. */
  ghost predicate Spared(f: Files, id: string, removed: set<string>, cutoff: int)
    requires ValidFiles(f)
  {
    Intact(f, id) && LastUse(f, id) >= cutoff && !NamesRemoved(f, id, removed)
  }

  /** One prune: on success the files left are those of the entries that stay, and the laws
      above say which those are. Even one that fails partway keeps every spared file and
      no file of an entry that it reports removed. */
  method Prune(c: Cache, limit: nat, cutoff: int, all: bool, broken: set<Path>)
    returns (ok: bool, ghost order: seq<Entry>)
    requires c.Valid()
    modifies c
    ensures c.Valid() && InOrder(order, old(c.files)) && (broken == {} ==> ok)
    ensures forall p :: p in c.files.paths ==> p in old(c.files).paths && Id(p) !in c.removed
    ensures var removed := Collected(old(c.files), order, limit, cutoff, all, true);
            && (ok ==> forall p :: p in c.files.paths <==> p in old(c.files).paths && Id(p) !in removed)
            && (!all ==> forall p ::
                  p in old(c.files).paths && Spared(old(c.files), Id(p), removed, cutoff) ==> p in c.files.paths)
  {
    hide Intact, NamesRemoved, LastUse, Collected, InOrder, Id;
    ghost var f := c.files;
    var before;
    ok, before, order := c.Collect(limit, cutoff, all, false, true, broken);
    FilterFacts(f.paths, c.gone);
    ghost var removed := Collected(f, order, limit, cutoff, all, true);
    if !all {
      forall p | p in f.paths && Spared(f, Id(p), removed, cutoff) ensures Id(p) !in removed {
        IntactHoldsNothingAbandoned(f, Id(p));
        WhatGoes(f, order, Id(p), limit, cutoff, false, true);
      }
    }
  }

  lemma IntactHoldsNothingAbandoned(f: Files, id: string)
    requires ValidFiles(f) && Intact(f, id)
    ensures !Doomed(f, id, false, true)
  {
    hide Intact;
    if HoldsAbandoned(f, id) {
      AbandonedIsNotIntact(f, id);
    }
  }
}
