/**
 Extraction of an archive to disk (internal/archive/archive.go, extractor). Paths are
 sequences of components. A host identifies names by a key of its own, no finer than
 the extractor's folding; a directory handle is the key path it was opened on, since
 nothing is renamed or removed during extraction. Folding and normalization are
 arbitrary functions.
 */
module ArchiveExtract {
  import opened Wrappers
  import Tree = ArchiveTree
  import Index = ArchiveIndex

  type Path = Tree.Path

  datatype Content = Folder | File(data: Bytes) | Alias(target: seq<string>) | Device

  datatype Entry = Entry(name: Path, content: Content, size: int)

  /** What lies on the disk, by key path; never a Device. */
  type Disk = map<Path, Content>

  datatype Rules = Rules(fold: Path -> string, nfd: Path -> string, host: string -> string)

  function Key(rules: Rules, path: Path): (key: Path)
    ensures |key| == |path|
  {
    seq(|path|, i requires 0 <= i < |path| => rules.host(path[i]))
  }

  /** Names that the host cannot tell apart fold alike. */
  ghost predicate HostBounded(rules: Rules) {
    forall p, q :: Key(rules, p) == Key(rules, q) ==> rules.fold(p) == rules.fold(q)
  }

  predicate IsPrefix(a: Path, b: Path) {
    |a| <= |b| && b[..|a|] == a
  }

  // ----- Directories on disk -----

  datatype Walked = Walked(disk: Disk, ok: bool)

  /** Mkdir and OpenRoot of one component. */
  function Enter(disk: Disk, child: Path): Walked {
    if child !in disk then Walked(disk[child := Folder], true) else Walked(disk, disk[child] == Folder)
  }

  /** Opening a path below a directory, with nothing cached. */
  function Walk(disk: Disk, at: Path, parts: Path): Walked
    decreases |parts|
  {
    if parts == [] then Walked(disk, true)
    else
      var entered := Enter(disk, at + [parts[0]]);
      if entered.ok then Walk(entered.disk, at + [parts[0]], parts[1..]) else entered
  }

  /** Below `at`, on the way to at + parts. */
  predicate OnTheWay(at: Path, parts: Path, path: Path) {
    |at| < |path| && IsPrefix(path, at + parts)
  }

  /** It succeeds when nothing but directories is on the way, and leaves all of them there. */
  lemma {:induction false} WalkMakes(disk: Disk, at: Path, parts: Path)
    ensures var walked := Walk(disk, at, parts);
            && (walked.ok <==> forall path :: OnTheWay(at, parts, path) && path in disk ==> disk[path] == Folder)
            && (walked.ok ==> forall path :: path in walked.disk <==> path in disk || OnTheWay(at, parts, path))
            && (walked.ok ==> forall path :: path in walked.disk ==>
                  walked.disk[path] == if path in disk then disk[path] else Folder)
    decreases |parts|
  {
    if parts != [] {
      var child := at + [parts[0]];
      assert at + parts == child + parts[1..];
      assert (at + parts)[..|child|] == child;
      assert OnTheWay(at, parts, child);
      var entered := Enter(disk, child);
      WalkMakes(entered.disk, child, parts[1..]);
      forall path ensures OnTheWay(at, parts, path) <==> path == child || OnTheWay(child, parts[1..], path) {
        assert |path| == |child| && IsPrefix(path, at + parts) ==> path == child;
      }
    }
  }

  /** The part of a walk over directories that exist changes nothing. */
  lemma {:induction false} WalkResumes(disk: Disk, at: Path, first: Path, rest: Path)
    requires forall n :: 0 < n <= |first| ==> at + first[..n] in disk && disk[at + first[..n]] == Folder
    ensures Walk(disk, at, first + rest) == Walk(disk, at + first, rest)
    decreases |first|
  {
    if first == [] {
      assert first + rest == rest && at + first == at;
    } else {
      var child := at + [first[0]];
      assert at + first[..1] == child;
      assert (first + rest)[1..] == first[1..] + rest;
      assert child + first[1..] == at + first;
      forall n | 0 < n <= |first| - 1 ensures child + first[1..][..n] == at + first[..n + 1] {
        assert first[..n + 1] == [first[0]] + first[1..][..n];
      }
      WalkResumes(disk, child, first[1..], rest);
    }
  }

  // ----- The cached chain of directory handles -----

  datatype Opened = Opened(name: string, handle: Path)

  function Names(parents: seq<Opened>): (names: Path)
    ensures |names| == |parents|
  {
    seq(|parents|, i requires 0 <= i < |parents| => parents[i].name)
  }

  /** Every cached handle is the directory its name leads to from the one before. */
  predicate Chained(rules: Rules, disk: Disk, parents: seq<Opened>) {
    forall i :: 0 <= i < |parents| ==>
      && parents[i].handle == Key(rules, Names(parents)[..i + 1])
      && parents[i].handle in disk && disk[parents[i].handle] == Folder
  }

  datatype State = State(disk: Disk, seen: set<string>, spelling: map<string, Path>, total: int, links: seq<Entry>)

  const Start := State(map[[] := Folder], {}, map[], 0, [])

  /** The spelling loop, from the name up to its first component. */
  function Spell(rules: Rules, spelling: map<string, Path>, name: Path): Option<map<string, Path>>
    decreases |name|
  {
    if name == [] then Some(spelling)
    else
      var key := rules.fold(name);
      if key in spelling && rules.nfd(spelling[key]) != rules.nfd(name) then None
      else Spell(rules, spelling[key := name], Tree.Parent(name))
  }

  /** What one archive entry does to the state. */
  function Take(rules: Rules, s: State, e: Entry): Option<State> {
    if e.name == [] && e.content == Folder then Some(s)
    else if |s.seen| >= Index.MAX_ENTRIES then None
    else match Spell(rules, s.spelling, e.name)
      case None => None
      case Some(spelling) =>
        var folded := rules.fold(e.name);
        if folded in s.seen || e.size < 0 || e.size > Index.MAX_BYTES - s.total then None
        else
          var walked := Walk(s.disk, [], Key(rules, Tree.Parent(e.name)));
          if !walked.ok then None
          else
            Place(rules, State(walked.disk, s.seen + {folded}, spelling, s.total + e.size, s.links), e)
  }

  /** The end of write, where the parent directory is open. */
  function Place(rules: Rules, s: State, e: Entry): Option<State> {
    match e.content
    case Folder =>
      var walked := Walk(s.disk, [], Key(rules, e.name));
      if walked.ok then Some(s.(disk := walked.disk)) else None
    case Alias(target) => if Index.LinkAllowed(e.name, target) then Some(s.(links := s.links + [e])) else None
    case Device => None
    case File(data) =>
      var key := Key(rules, e.name);
      if key in s.disk || |data| != e.size then None else Some(s.(disk := s.disk[key := File(data)]))
  }

  class Extractor {
    const rules: Rules
    var disk: Disk
    var seen: set<string>
    var spelling: map<string, Path>
    var total: int
    var links: seq<Entry>
    var parents: seq<Opened>

    constructor (rules: Rules)
      ensures this.rules == rules && Now() == Start && Valid()
    {
      this.rules := rules;
      disk, seen, spelling, total, links, parents := map[[] := Folder], {}, map[], 0, [], [];
    }

    function Now(): State
      reads this
    {
      State(disk, seen, spelling, total, links)
    }

    predicate Valid()
      reads this
    {
      Chained(rules, disk, parents)
    }

    /** The directory an uncached walk from the root opens, in the same disk as that walk
        leaves; afterwards exactly this directory's components are cached. */
    method OpenParent(parts: Path) returns (r: Option<Path>)
      requires Valid()
      modifies this`disk, this`parents
      ensures Valid() && Walked(disk, r.Some?) == Walk(old(disk), [], Key(rules, parts))
      ensures r.Some? ==> r.value == Key(rules, parts) && Names(parents) == parts
    {
      hide Chained, Walk, Enter;
      var common := 0;
      while common < |parts| && common < |parents| && parts[common] == parents[common].name
        invariant common <= |parts| && common <= |parents|
        invariant parts[..common] == Names(parents)[..common]
      {
        common := common + 1;
      }
      ghost var before := disk;
      KeyPrefix(rules, parts, common);
      CutChain(rules, disk, parents, parts, common);
      parents := parents[..common];
      WalkResumes(disk, [], Key(rules, parts[..common]), Key(rules, parts[common..]));
      assert [] + Key(rules, parts[..common]) == Key(rules, parts[..common]);
      assert Key(rules, parts[..common]) + Key(rules, parts[common..]) == Key(rules, parts);
      var root: Path := if common > 0 then parents[common - 1].handle else [];
      hide Names;
      for i := common to |parts|
        invariant Valid() && Names(parents) == parts[..i] && root == Key(rules, parts[..i])
        invariant Walk(before, [], Key(rules, parts)) == Walk(disk, root, Key(rules, parts[i..]))
      {
        var child := root + [rules.host(parts[i])];
        var entered := Enter(disk, child);
        WalkOne(rules, disk, parts, i);
        StillChained(rules, disk, entered, parents, parts, i);
        disk := entered.disk;
        if !entered.ok {
          return None;
        }
        root, parents := child, parents + [Opened(parts[i], child)];
      }
      assert parts[|parts|..] == [] && parts[..|parts|] == parts;
      WalkEnds(rules, disk, root);
      return Some(root);
    }

    /** One entry, in archive order. */
    method Write(e: Entry) returns (ok: bool)
      requires Valid()
      modifies this
      ensures ok <==> Take(rules, old(Now()), e).Some?
      ensures ok ==> Valid() && Now() == Take(rules, old(Now()), e).value
    {
      hide Chained, Walk, Index.LinkAllowed;
      if e.name == [] && e.content == Folder {
        return true;
      }
      if |seen| >= Index.MAX_ENTRIES {
        return false;
      }
      ghost var before := Now();
      var consistent := CheckSpelling(e.name);
      var folded := rules.fold(e.name);
      if !consistent || folded in seen || e.size < 0 || e.size > Index.MAX_BYTES - total {
        return false;
      }
      seen := seen + {folded};
      total := total + e.size;
      var parent := OpenParent(Tree.Parent(e.name));
      if parent.None? {
        return false;
      }
      assert Take(rules, before, e) == Place(rules, Now(), e);
      ok := PlaceEntry(e, parent.value);
    }

    method PlaceEntry(e: Entry, parent: Path) returns (ok: bool)
      requires Valid() && parent == Key(rules, Tree.Parent(e.name))
      modifies this
      ensures ok <==> Place(rules, old(Now()), e).Some?
      ensures ok ==> Valid() && Now() == Place(rules, old(Now()), e).value
    {
      hide Walk, Index.LinkAllowed;
      match e.content {
        case Folder =>
          var own := OpenParent(e.name);
          ok := own.Some?;
        case Alias(target) =>
          ok := Index.LinkAllowed(e.name, target);
          links := if ok then links + [e] else links;
        case Device =>
          ok := false;
        case File(data) =>
          var key := if e.name == [] then parent else parent + [rules.host(e.name[|e.name| - 1])];
          assert key == Key(rules, e.name);
          ok := key !in disk && |data| == e.size;
          disk := if ok then disk[key := File(data)] else disk;
      }
    }

    method CheckSpelling(name: Path) returns (ok: bool)
      modifies this`spelling
      ensures ok <==> Spell(rules, old(spelling), name).Some?
      ensures ok ==> spelling == Spell(rules, old(spelling), name).value
    {
      var prefix := name;
      while prefix != []
        invariant Spell(rules, spelling, prefix) == Spell(rules, old(spelling), name)
        decreases |prefix|
      {
        var key := rules.fold(prefix);
        if key in spelling && rules.nfd(spelling[key]) != rules.nfd(prefix) {
          return false;
        }
        spelling := spelling[key := prefix];
        prefix := Tree.Parent(prefix);
      }
      return true;
    }
  }

  lemma KeyPrefix(rules: Rules, parts: Path, n: nat)
    requires n <= |parts|
    ensures Key(rules, parts) == Key(rules, parts[..n]) + Key(rules, parts[n..])
    ensures Key(rules, parts[..n]) == Key(rules, parts)[..n]
  {}

  lemma CutChain(rules: Rules, disk: Disk, parents: seq<Opened>, parts: Path, common: nat)
    requires Chained(rules, disk, parents) && common <= |parents| && common <= |parts|
    requires parts[..common] == Names(parents)[..common]
    ensures Chained(rules, disk, parents[..common]) && Names(parents[..common]) == parts[..common]
    ensures common > 0 ==> parents[common - 1].handle == Key(rules, parts[..common])
    ensures forall n :: 0 < n <= common ==>
              [] + Key(rules, parts[..common])[..n] in disk && disk[[] + Key(rules, parts[..common])[..n]] == Folder
  {
    var names := Names(parents);
    assert Names(parents[..common]) == parts[..common];
    forall n | 0 < n <= common
      ensures [] + Key(rules, parts[..common])[..n] == parents[n - 1].handle
      ensures Key(rules, parts[..common][..n]) == parents[n - 1].handle
    {
      assert parts[..common][..n] == names[..n];
      KeyPrefix(rules, parts[..common], n);
      assert [] + Key(rules, parts[..common])[..n] == Key(rules, parts[..common])[..n];
    }
  }

  lemma WalkOne(rules: Rules, disk: Disk, parts: Path, i: nat)
    requires i < |parts|
    ensures var root := Key(rules, parts[..i]); var child := root + [rules.host(parts[i])];
            var entered := Enter(disk, child);
            && child == Key(rules, parts[..i + 1])
            && Walk(disk, root, Key(rules, parts[i..]))
               == if entered.ok then Walk(entered.disk, child, Key(rules, parts[i + 1..])) else entered
  {
    assert Key(rules, parts[i..])[1..] == Key(rules, parts[i + 1..]);
  }

  lemma WalkEnds(rules: Rules, disk: Disk, at: Path)
    ensures Walk(disk, at, Key(rules, [])) == Walked(disk, true)
  {}

  /** Entering one component keeps the chain, and extends it when the component is a directory. */
  lemma StillChained(rules: Rules, before: Disk, entered: Walked, parents: seq<Opened>, parts: Path, i: nat)
    requires i < |parts| && Names(parents) == parts[..i] && Chained(rules, before, parents)
    requires entered == Enter(before, Key(rules, parts[..i]) + [rules.host(parts[i])])
    ensures Chained(rules, entered.disk, parents)
    ensures var next := parents + [Opened(parts[i], Key(rules, parts[..i]) + [rules.host(parts[i])])];
            Names(next) == parts[..i + 1] && (entered.ok ==> Chained(rules, entered.disk, next))
  {
    var child := Key(rules, parts[..i]) + [rules.host(parts[i])];
    var next := parents + [Opened(parts[i], child)];
    assert Names(next) == parts[..i + 1];
    forall k | 0 <= k < i ensures Key(rules, Names(next)[..k + 1]) == parents[k].handle {
      assert Names(next)[..k + 1] == Names(parents)[..k + 1];
    }
    assert child == Key(rules, parts[..i + 1]);
  }
}
