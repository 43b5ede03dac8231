/**
 Cache inventory and collection (internal/cas/maintenance.go): grouping of the
 cache's files into entries, eviction with cascading invalidation, and the usage
 accounting that has to agree with counting again.
 */
module CasMaintenance {
  // ----- The cache directory -----

  datatype Dir = Objects | Work | Sources | Derivations | Materialized | Plugins | Uses

  function DirName(dir: Dir): string {
    match dir
    case Objects => "objects"
    case Work => "work"
    case Sources => "sources"
    case Derivations => "derivations"
    case Materialized => "materialized"
    case Plugins => "plugins"
    case Uses => "uses"
  }

  datatype Path = Path(dir: Dir, name: string)

  /** What the inventory reads of one child: its tree size, its type, whether
      Lookup would serve it as an object, its modification time, whether it holds
      a completion marker, and its decoded index. */
  datatype Node = Node(size: nat, regular: bool, directory: bool, served: bool, modified: nat,
                       complete: bool, decodes: bool, named: seq<string>)

  /** The children in directory order. */
  datatype Files = Files(paths: seq<Path>, nodes: map<Path, Node>)

  predicate ValidFiles(f: Files) {
    && f.nodes.Keys == (set p | p in f.paths)
    && (forall i, j :: 0 <= i < j < |f.paths| ==> f.paths[i] != f.paths[j])
  }

  predicate IsHexDigit(c: char) {
    '0' <= c <= '9' || 'a' <= c <= 'f'
  }

  predicate ValidDigest(s: string) {
    |s| == 64 && forall i :: 0 <= i < |s| ==> IsHexDigit(s[i])
  }

  predicate HasDigest(f: Files, digest: string) {
    ValidDigest(digest) && Path(Objects, digest) in f.nodes && f.nodes[Path(Objects, digest)].served
  }

  const OBJECT := "objects-"

  function Id(p: Path): string {
    if p.dir == Materialized then OBJECT + p.name
    else if p.dir == Uses then p.name
    else DirName(p.dir) + "-" + p.name
  }

  predicate Partial(p: Path) {
    p.dir == Work || ".import-" <= p.name || ".stemma-" <= p.name
  }

  // ----- Usage -----

  datatype Usage = Usage(retained: int, objects: int, materialized: int, metadata: int, work: int) {
    function Plus(other: Usage): Usage {
      Usage(retained + other.retained, objects + other.objects, materialized + other.materialized,
            metadata + other.metadata, work + other.work)
    }

    function Minus(other: Usage): Usage {
      Usage(retained - other.retained, objects - other.objects, materialized - other.materialized,
            metadata - other.metadata, work - other.work)
    }

    predicate Balanced() {
      retained == objects + materialized + metadata
    }
  }

  const NONE := Usage(0, 0, 0, 0, 0)

  function PathUsage(p: Path, n: Node): Usage {
    if Partial(p) then Usage(0, 0, 0, 0, n.size)
    else if p.dir == Objects then Usage(n.size, n.size, 0, 0, 0)
    else if p.dir in {Materialized, Plugins} then Usage(n.size, 0, n.size, 0, 0)
    else Usage(n.size, 0, 0, n.size, 0)
  }

  /** Counting the files of some entries afresh. */
  function Count(paths: seq<Path>, nodes: map<Path, Node>, ids: set<string>): Usage
    requires forall p :: p in paths ==> p in nodes
  {
    if paths == [] then NONE
    else
      var last := paths[|paths| - 1];
      var rest := Count(paths[..|paths| - 1], nodes, ids);
      if Id(last) in ids then rest.Plus(PathUsage(last, nodes[last])) else rest
  }

  function Ids(f: Files): set<string> {
    set p | p in f.paths :: Id(p)
  }

  function Counted(f: Files, ids: set<string>): Usage
    requires ValidFiles(f)
  {
    Count(f.paths, f.nodes, ids)
  }

  // ----- Entries -----

  datatype Entry = Entry(id: string, paths: seq<Path>, usage: Usage, used: nat, objects: seq<string>, invalid: bool,
                         temporary: bool)

  predicate Malformed(p: Path, n: Node) {
    var tree := p.dir in {Materialized, Plugins};
    !ValidDigest(p.name) || (!tree && !n.regular) || (tree && !n.directory)
  }

  /** Adds one child to its entry, branch by branch as the inventory loop does. */
  function Grow(e: Entry, f: Files, p: Path): Entry
    requires p in f.nodes
  {
    var n := f.nodes[p];
    var grown := e.(paths := e.paths + [p], usage := e.usage.Plus(PathUsage(p, n)));
    if Partial(p) then grown.(temporary := true, invalid := true)
    else if p.dir == Uses then if n.regular then grown.(used := n.modified) else grown
    else
      var invalid := e.invalid || Malformed(p, n) || (p.dir == Plugins && !n.complete);
      if p.dir in {Sources, Derivations} && !invalid then
        grown.(objects := n.named,
               invalid := !n.decodes || exists i :: 0 <= i < |n.named| && !HasDigest(f, n.named[i]))
      else grown.(invalid := invalid)
  }

  function Gather(paths: seq<Path>, f: Files, id: string): Entry
    requires forall p :: p in paths ==> p in f.nodes
  {
    if paths == [] then NewEntry(id)
    else
      var last := paths[|paths| - 1];
      var rest := Gather(paths[..|paths| - 1], f, id);
      if Id(last) == id then Grow(rest, f, last) else rest
  }

  /** A recency marker alone is an interrupted or previously evicted entry. */
  function Finish(e: Entry): Entry {
    if |e.paths| == 1 && e.paths[0].dir == Uses then e.(invalid := true) else e
  }

  function EntryOf(f: Files, id: string): Entry
    requires ValidFiles(f)
  {
    Finish(Gather(f.paths, f, id))
  }

  /** One entry per identifier, in any order. */
  predicate Enumerates(entries: seq<Entry>, f: Files, ids: set<string>)
    requires ValidFiles(f)
  {
    && (forall i :: 0 <= i < |entries| ==> entries[i].id in ids && entries[i] == EntryOf(f, entries[i].id))
    && (forall id :: id in ids ==> exists i :: 0 <= i < |entries| && entries[i].id == id)
    && (forall i, j :: 0 <= i < j < |entries| ==> entries[i].id != entries[j].id)
  }

  lemma {:induction false} GatherFacts(paths: seq<Path>, f: Files, id: string)
    requires forall p :: p in paths ==> p in f.nodes
    ensures var e := Gather(paths, f, id);
            && e.id == id && e.usage == Count(paths, f.nodes, {id})
            && (forall p :: p in e.paths <==> p in paths && Id(p) == id)
            && (OBJECT <= id ==> e.objects == [])
  {
    if paths != [] {
      var last := paths[|paths| - 1];
      GatherFacts(paths[..|paths| - 1], f, id);
      assert paths == paths[..|paths| - 1] + [last];
      if Id(last) == id && last.dir in {Sources, Derivations} {
        assert id[0] != OBJECT[0];
      }
    }
  }

  lemma {:induction false} CountSplits(paths: seq<Path>, nodes: map<Path, Node>, a: set<string>, b: set<string>)
    requires forall p :: p in paths ==> p in nodes
    requires a !! b
    ensures Count(paths, nodes, a + b) == Count(paths, nodes, a).Plus(Count(paths, nodes, b))
  {
    if paths != [] {
      CountSplits(paths[..|paths| - 1], nodes, a, b);
    }
  }

  lemma {:induction false} CountBalanced(paths: seq<Path>, nodes: map<Path, Node>, ids: set<string>)
    requires forall p :: p in paths ==> p in nodes
    ensures Count(paths, nodes, ids).Balanced()
  {
    if paths != [] {
      CountBalanced(paths[..|paths| - 1], nodes, ids);
    }
  }

  function NewEntry(id: string): Entry {
    Entry(id, [], NONE, 0, [], false, false)
  }

  lemma GatherNext(f: Files, i: nat, id: string)
    requires ValidFiles(f) && i < |f.paths|
    ensures Gather(f.paths[..i + 1], f, id) ==
            if Id(f.paths[i]) == id then Grow(Gather(f.paths[..i], f, id), f, f.paths[i])
              else Gather(f.paths[..i], f, id)
  {
    assert f.paths[..i + 1][..i] == f.paths[..i];
  }

  lemma GatherNothing(f: Files, id: string)
    requires ValidFiles(f)
    ensures Gather(f.paths[..0], f, id) == NewEntry(id)
  {}

  lemma EntryFacts(f: Files, id: string)
    requires ValidFiles(f)
    ensures EntryOf(f, id) == Finish(Gather(f.paths, f, id))
    ensures var e := EntryOf(f, id);
            && e.id == id && e.usage == Counted(f, {id})
            && (forall p :: p in e.paths <==> p in f.paths && Id(p) == id)
            && (OBJECT <= id ==> e.objects == [])
  {
    GatherFacts(f.paths, f, id);
  }

  lemma EnumeratesNothing(f: Files)
    requires ValidFiles(f)
    ensures Enumerates([], f, {}) && Counted(f, {}) == NONE
  {
    CountNothing(f.paths, f.nodes);
  }

  /** Adds every child to the entry of its identifier. */
  method Group(f: Files) returns (groups: map<string, Entry>)
    requires ValidFiles(f)
    ensures groups.Keys == Ids(f)
    ensures forall id :: id in groups ==> groups[id] == Gather(f.paths, f, id)
  {
    hide Gather, Grow, Grouped;
    groups := map[];
    GroupedNothing(f);
    for i := 0 to |f.paths|
      invariant Grouped(f, groups, i)
    {
      var p := f.paths[i];
      GroupedNext(f, groups, i);
      groups := groups[Id(p) := Grow(if Id(p) in groups then groups[Id(p)] else NewEntry(Id(p)), f, p)];
    }
    GroupedAll(f, groups);
  }

  /** The groups after the first i children. */
  predicate Grouped(f: Files, groups: map<string, Entry>, i: nat)
    requires ValidFiles(f) && i <= |f.paths|
  {
    && (forall id :: id in groups ==> groups[id] == Gather(f.paths[..i], f, id))
    && (forall id :: id in groups ==> exists k :: 0 <= k < i && Id(f.paths[k]) == id)
    && (forall k :: 0 <= k < i ==> Id(f.paths[k]) in groups)
  }

  lemma GroupedNothing(f: Files)
    requires ValidFiles(f)
    ensures Grouped(f, map[], 0)
  {}

  lemma {:induction false} GatherOthers(f: Files, i: nat, id: string)
    requires ValidFiles(f) && i <= |f.paths| && forall k :: 0 <= k < i ==> Id(f.paths[k]) != id
    ensures Gather(f.paths[..i], f, id) == NewEntry(id)
  {
    hide Grow, Gather, Id;
    if i == 0 {
      GatherNothing(f, id);
    } else {
      GatherNext(f, i - 1, id);
      GatherOthers(f, i - 1, id);
    }
  }

  lemma GroupedNext(f: Files, groups: map<string, Entry>, i: nat)
    requires ValidFiles(f) && i < |f.paths| && Grouped(f, groups, i)
    ensures var p := f.paths[i];
            Grouped(f, groups[Id(p) := Grow(if Id(p) in groups then groups[Id(p)] else NewEntry(Id(p)), f, p)], i + 1)
  {
    hide Gather, Grow, Id;
    var p := f.paths[i];
    if Id(p) !in groups {
      GatherOthers(f, i, Id(p));
    }
    var more := groups[Id(p) := Grow(if Id(p) in groups then groups[Id(p)] else NewEntry(Id(p)), f, p)];
    forall id | id in more ensures more[id] == Gather(f.paths[..i + 1], f, id) {
      GatherNext(f, i, id);
    }
  }

  lemma GroupedAll(f: Files, groups: map<string, Entry>)
    requires ValidFiles(f) && Grouped(f, groups, |f.paths|)
    ensures groups.Keys == Ids(f)
    ensures forall id :: id in groups ==> groups[id] == Gather(f.paths, f, id)
  {
    hide Gather, Id;
    assert f.paths[..|f.paths|] == f.paths;
  }

  lemma EnumeratesNext(entries: seq<Entry>, f: Files, done: set<string>, e: Entry)
    requires ValidFiles(f) && Enumerates(entries, f, done) && e.id !in done && e == EntryOf(f, e.id)
    ensures Enumerates(entries + [e], f, done + {e.id})
  {
    var all := entries + [e];
    assert all[|entries|].id == e.id;
    forall id | id in done ensures exists i :: 0 <= i < |all| && all[i].id == id {
      var i :| 0 <= i < |entries| && entries[i].id == id;
      assert all[i].id == id;
    }
  }

  lemma InventoryStep(entries: seq<Entry>, f: Files, done: set<string>, e: Entry)
    requires ValidFiles(f) && Enumerates(entries, f, done) && e.id !in done && e == EntryOf(f, e.id)
    ensures Enumerates(entries + [e], f, done + {e.id})
    ensures Counted(f, done + {e.id}) == Counted(f, done).Plus(e.usage)
  {
    EntryFacts(f, e.id);
    CountSplits(f.paths, f.nodes, done, {e.id});
    EnumeratesNext(entries, f, done, e);
  }

  method Entries(f: Files) returns (groups: map<string, Entry>)
    requires ValidFiles(f)
    ensures groups.Keys == Ids(f)
    ensures forall id :: id in groups ==> groups[id] == EntryOf(f, id) && groups[id].id == id
  {
    hide Gather, Ids;
    var gathered := Group(f);
    groups := map id | id in gathered :: Finish(gathered[id]);
    forall id | id in groups ensures groups[id] == EntryOf(f, id) && groups[id].id == id {
      EntryFacts(f, id);
    }
  }

  /** Totals the groups in whatever order the map yields them. */
  method Inventory(f: Files) returns (entries: seq<Entry>, usage: Usage)
    requires ValidFiles(f)
    ensures Enumerates(entries, f, Ids(f)) && usage == Counted(f, Ids(f))
  {
    hide Enumerates, EntryOf, Counted, Ids, ValidFiles;
    var groups := Entries(f);
    entries, usage := [], NONE;
    var done: set<string> := {};
    EnumeratesNothing(f);
    while done != groups.Keys
      invariant done <= groups.Keys
      invariant Enumerates(entries, f, done) && usage == Counted(f, done)
      decreases |groups.Keys - done|
    {
      var id :| id in groups.Keys - done;
      InventoryStep(entries, f, done, groups[id]);
      entries, usage := entries + [groups[id]], usage.Plus(groups[id].usage);
      assert groups.Keys - (done + {id}) == groups.Keys - done - {id};
      done := done + {id};
    }
  }

  lemma {:induction false} CountNothing(paths: seq<Path>, nodes: map<Path, Node>)
    requires forall p :: p in paths ==> p in nodes
    ensures Count(paths, nodes, {}) == NONE
  {
    if paths != [] {
      CountNothing(paths[..|paths| - 1], nodes);
    }
  }
}
