/**
 What a whole extraction leaves on disk (internal/archive/archive.go, extractor.write and
 finish): a success condition and a layout that do not mention the entries' order.
 */
module ArchiveLayout {
  import opened Wrappers
  import Pairs
  import Index = ArchiveIndex
  import Tree = ArchiveTree
  import opened ArchiveExtract

  /** Links are installed last, each where nothing is yet. */
  function Install(rules: Rules, disk: Disk, links: seq<Entry>): Option<Disk>
    decreases |links|
  {
    if links == [] then Some(disk)
    else
      var key := Key(rules, links[0].name);
      if key in disk then None else Install(rules, disk[key := links[0].content], links[1..])
  }

  function TakeAll(rules: Rules, entries: seq<Entry>): Option<State>
    decreases |entries|
  {
    if entries == [] then Some(Start)
    else match TakeAll(rules, entries[..|entries| - 1])
      case None => None
      case Some(s) => Take(rules, s, entries[|entries| - 1])
  }

  function Extract(rules: Rules, entries: seq<Entry>): Option<Disk> {
    match TakeAll(rules, entries)
    case None => None
    case Some(s) => Install(rules, s.disk, s.links)
  }

  /** The extraction loop, and finish. */
  method ExtractAll(rules: Rules, entries: seq<Entry>) returns (r: Option<Disk>)
    ensures r == Extract(rules, entries)
  {
    hide Take, Chained;
    var x := new Extractor(rules);
    for i := 0 to |entries|
      invariant x.rules == rules && x.Valid() && fresh(x)
      invariant TakeAll(rules, entries[..i]) == Some(x.Now())
    {
      assert entries[..i + 1][..i] == entries[..i];
      ghost var before := x.Now();
      var ok := x.Write(entries[i]);
      assert TakeAll(rules, entries[..i + 1]) == Take(rules, before, entries[i]);
      if !ok {
        FailureStays(rules, entries, i + 1);
        return None;
      }
    }
    assert entries[..|entries|] == entries;
    var disk := x.disk;
    for i := 0 to |x.links|
      invariant Install(rules, disk, x.links[i..]) == Install(rules, x.disk, x.links)
    {
      var key := Key(rules, x.links[i].name);
      if key in disk {
        return None;
      }
      disk := disk[key := x.links[i].content];
      assert x.links[i..][1..] == x.links[i + 1..];
    }
    return Some(disk);
  }

  lemma {:induction false} FailureStays(rules: Rules, entries: seq<Entry>, n: nat)
    requires n <= |entries| && TakeAll(rules, entries[..n]).None?
    ensures TakeAll(rules, entries).None?
    decreases |entries| - n
  {
    if n < |entries| {
      assert entries[..n + 1][..n] == entries[..n];
      FailureStays(rules, entries, n + 1);
    } else {
      assert entries[..n] == entries;
    }
  }

  // ----- The entries' meaning, whatever their order -----

  predicate FolderOf(rules: Rules, e: Entry, path: Path) {
    IsPrefix(path, Key(rules, e.name)) && (path != Key(rules, e.name) || e.content == Folder)
  }

  /** A directory of the layout: the root, an entry's own, or one on the way to an entry. */
  predicate IsFolder(rules: Rules, entries: seq<Entry>, path: Path) {
    path == [] || exists e <- entries :: FolderOf(rules, e, path)
  }

  predicate Holds(rules: Rules, entries: seq<Entry>, path: Path, content: Content) {
    exists e <- entries :: e.content == content && Key(rules, e.name) == path
  }

  function At(disk: Disk, path: Path): Option<Content> {
    if path in disk then Some(disk[path]) else None
  }

  /** The disk holds every directory, every file at its own path and, once they are
      installed, every link; nothing else. */
  ghost predicate Laid(rules: Rules, disk: Disk, entries: seq<Entry>, linked: bool) {
    forall path, content :: At(disk, path) == Some(content) <==>
      match content
      case Folder => IsFolder(rules, entries, path)
      case File(_) => Holds(rules, entries, path, content)
      case Alias(_) => linked && Holds(rules, entries, path, content)
      case Device => false
  }

  function Prefixes(name: Path): set<Path> {
    set n | 0 < n <= |name| :: name[..n]
  }

  /** Every path some entry spells: its name and the directories on the way. */
  function Spelled(entries: seq<Entry>): set<Path>
    decreases |entries|
  {
    if entries == [] then {} else Spelled(entries[..|entries| - 1]) + Prefixes(entries[|entries| - 1].name)
  }

  /** Spellings that fold alike are one path. */
  predicate Consistent(rules: Rules, paths: set<Path>) {
    forall p, q :: p in paths && q in paths && rules.fold(p) == rules.fold(q) ==> rules.nfd(p) == rules.nfd(q)
  }

  predicate Supported(e: Entry) {
    && 0 <= e.size
    && match e.content
       case Folder => true
       case File(data) => |data| == e.size
       case Alias(target) => Index.LinkAllowed(e.name, target)
       case Device => false
  }

  /** Something that is not a directory is in the way of another entry. */
  predicate Blocks(rules: Rules, e: Entry, other: Entry) {
    !e.content.Folder? && IsPrefix(Key(rules, e.name), Key(rules, other.name))
  }

  function SizeOf(e: Entry): int {
    e.size
  }

  function DistinctFolds(rules: Rules): (Entry, Entry) -> bool {
    (a: Entry, b: Entry) => rules.fold(a.name) != rules.fold(b.name)
  }

  /** What every entry before the links are installed must meet. */
  ghost predicate Proceeds(rules: Rules, entries: seq<Entry>) {
    && |entries| <= Index.MAX_ENTRIES && Pairs.Sum(entries, SizeOf) <= Index.MAX_BYTES
    && (forall e <- entries :: Supported(e))
    && Consistent(rules, Spelled(entries))
    && Pairs.Pairwise(entries, DistinctFolds(rules))
    && (forall e <- entries :: e.content.File? ==> e.name != [])
    && (forall e <- entries, o <- entries :: e != o && e.content.File? ==> !Blocks(rules, e, o))
  }

  ghost predicate LinksFree(rules: Rules, entries: seq<Entry>) {
    && (forall e <- entries :: e.content.Alias? ==> e.name != [])
    && (forall e <- entries, o <- entries :: e != o && e.content.Alias? ==> !Blocks(rules, e, o))
  }

  /** An archive that extracts, without its entries for the root itself. */
  ghost predicate Accepted(rules: Rules, entries: seq<Entry>) {
    Proceeds(rules, entries) && LinksFree(rules, entries)
  }

  // ----- Names -----

  predicate Tracks(rules: Rules, spelling: map<string, Path>, paths: set<Path>) {
    && (forall p :: p in paths ==> rules.fold(p) in spelling && rules.nfd(spelling[rules.fold(p)]) == rules.nfd(p))
    && (forall k :: k in spelling ==> spelling[k] in paths && rules.fold(spelling[k]) == k)
  }

  /** The spelling map rejects exactly the names that would make spellings inconsistent. */
  lemma {:induction false} SpellingDecides(rules: Rules, spelling: map<string, Path>, paths: set<Path>, name: Path)
    requires Tracks(rules, spelling, paths)
    ensures Spell(rules, spelling, name).Some? <==> Consistent(rules, paths + Prefixes(name))
    ensures Spell(rules, spelling, name).Some? ==>
            Tracks(rules, Spell(rules, spelling, name).value, paths + Prefixes(name))
    decreases |name|
  {
    if name == [] {
      assert paths + Prefixes(name) == paths;
      TrackedIsConsistent(rules, spelling, paths);
    } else {
      var key := rules.fold(name);
      assert name[..|name|] == name && name in Prefixes(name);
      if !(key in spelling && rules.nfd(spelling[key]) != rules.nfd(name)) {
        forall p | p in Prefixes(name) ensures p == name || p in Prefixes(Tree.Parent(name)) {
          var n :| 0 < n <= |name| && p == name[..n];
          assert n < |name| ==> p == Tree.Parent(name)[..n];
        }
        forall p | p in Prefixes(Tree.Parent(name)) ensures p in Prefixes(name) {
          var n :| 0 < n <= |name| - 1 && p == Tree.Parent(name)[..n];
          assert p == name[..n];
        }
        assert (paths + {name}) + Prefixes(Tree.Parent(name)) == paths + Prefixes(name);
        SpellingDecides(rules, spelling[key := name], paths + {name}, Tree.Parent(name));
      }
    }
  }

  lemma TrackedIsConsistent(rules: Rules, spelling: map<string, Path>, paths: set<Path>)
    requires Tracks(rules, spelling, paths)
    ensures Consistent(rules, paths)
  {}

  // ----- Appending one entry -----

  lemma MoreFolders(rules: Rules, entries: seq<Entry>, e: Entry, path: Path)
    ensures IsFolder(rules, entries + [e], path) <==> IsFolder(rules, entries, path) || FolderOf(rules, e, path)
  {
    Appended(entries, e);
  }

  lemma MoreHeld(rules: Rules, entries: seq<Entry>, e: Entry, path: Path, content: Content)
    ensures Holds(rules, entries + [e], path, content)
       <==> Holds(rules, entries, path, content) || (e.content == content && Key(rules, e.name) == path)
  {
    Appended(entries, e);
  }

  lemma Appended<T>(s: seq<T>, x: T)
    ensures forall y :: y in s + [x] <==> y in s || y == x
    ensures (s + [x])[..|s|] == s && (s + [x])[|s|] == x
  {}

  predicate FilesClear(rules: Rules, entries: seq<Entry>, key: Path) {
    forall e <- entries :: e.content.File? && Key(rules, e.name) != [] ==> !IsPrefix(Key(rules, e.name), key)
  }

  /** An entry for a directory on the way. */
  function FolderAt(name: Path): Entry {
    Entry(name, Folder, 0)
  }

  /** Walking to a path succeeds unless a file is on the way, and lays that directory. */
  lemma WalkLays(rules: Rules, disk: Disk, entries: seq<Entry>, name: Path)
    requires Laid(rules, disk, entries, false)
    ensures var walked := Walk(disk, [], Key(rules, name));
            && (walked.ok <==> FilesClear(rules, entries, Key(rules, name)))
            && (walked.ok ==> Laid(rules, walked.disk, entries + [FolderAt(name)], false))
  {
    hide Walk, IsFolder, Holds;
    var parts := Key(rules, name);
    var walked := Walk(disk, [], parts);
    WalkMakes(disk, [], parts);
    assert [] + parts == parts;
    RootIsFolder(rules, entries);
    assert At(disk, []) == Some(Folder);
    forall path | OnTheWay([], parts, path) && path in disk
      ensures disk[path] == Folder || exists e <- entries :: e.content.File? && Key(rules, e.name) == path
    {
      assert At(disk, path) == Some(disk[path]);
      HeldBySome(rules, entries, path, disk[path]);
    }
    forall e <- entries | e.content.File?
      ensures At(disk, Key(rules, e.name)) == Some(e.content)
    {
      HeldBySome(rules, entries, Key(rules, e.name), e.content);
    }
    forall path ensures IsPrefix(path, parts) <==> path == [] || OnTheWay([], parts, path) {}
    if walked.ok {
      forall path, content ensures
        At(walked.disk, path) == Some(content) <==>
          At(disk, path) == Some(content) || (content == Folder && IsPrefix(path, parts)) {}
      forall path {
        MoreFolders(rules, entries, FolderAt(name), path);
      }
      forall path, content {
        MoreHeld(rules, entries, FolderAt(name), path, content);
      }
    }
  }

  lemma RootIsFolder(rules: Rules, entries: seq<Entry>)
    ensures IsFolder(rules, entries, [])
  {}

  lemma HeldBySome(rules: Rules, entries: seq<Entry>, path: Path, content: Content)
    ensures Holds(rules, entries, path, content) <==>
            exists e <- entries :: e.content == content && Key(rules, e.name) == path
  {}

  lemma ParentIsPrefix(rules: Rules, name: Path, path: Path)
    ensures IsPrefix(path, Key(rules, name)) <==>
            IsPrefix(path, Key(rules, Tree.Parent(name))) || path == Key(rules, name)
    ensures name != [] ==> |Key(rules, Tree.Parent(name))| < |Key(rules, name)|
  {
    if name != [] {
      var key, parent := Key(rules, name), Key(rules, Tree.Parent(name));
      assert parent == key[..|name| - 1];
      assert |path| <= |parent| ==> key[..|path|] == parent[..|path|];
    }
  }

  /** Layouts with the same directories and files are one. */
  lemma SameLayout(rules: Rules, disk: Disk, a: seq<Entry>, b: seq<Entry>)
    requires Laid(rules, disk, a, false)
    requires forall path :: IsFolder(rules, a, path) == IsFolder(rules, b, path)
    requires forall path, data :: Holds(rules, a, path, File(data)) == Holds(rules, b, path, File(data))
    ensures Laid(rules, disk, b, false)
  {
    hide IsFolder, Holds, At;
  }

  lemma LayFolder(rules: Rules, disk: Disk, entries: seq<Entry>, e: Entry)
    requires Laid(rules, disk, entries + [FolderAt(Tree.Parent(e.name))], false) && e.content == Folder
    ensures var walked := Walk(disk, [], Key(rules, e.name));
            && (walked.ok <==> FilesClear(rules, entries, Key(rules, e.name)))
            && (walked.ok ==> Laid(rules, walked.disk, entries + [e], false))
  {
    hide Walk, IsFolder, Holds, Laid;
    var before := entries + [FolderAt(Tree.Parent(e.name))];
    WalkLays(rules, disk, before, e.name);
    Appended(entries, FolderAt(Tree.Parent(e.name)));
    if Walk(disk, [], Key(rules, e.name)).ok {
      forall path ensures IsFolder(rules, before + [FolderAt(e.name)], path) == IsFolder(rules, entries + [e], path) {
        MoreFolders(rules, before, FolderAt(e.name), path);
        MoreFolders(rules, entries, FolderAt(Tree.Parent(e.name)), path);
        MoreFolders(rules, entries, e, path);
        ParentIsPrefix(rules, e.name, path);
      }
      forall path, data
        ensures Holds(rules, before + [FolderAt(e.name)], path, File(data))
                == Holds(rules, entries + [e], path, File(data))
      {
        MoreHeld(rules, before, FolderAt(e.name), path, File(data));
        MoreHeld(rules, entries, FolderAt(Tree.Parent(e.name)), path, File(data));
        MoreHeld(rules, entries, e, path, File(data));
      }
      SameLayout(rules, Walk(disk, [], Key(rules, e.name)).disk, before + [FolderAt(e.name)], entries + [e]);
    }
  }

  lemma LayLink(rules: Rules, disk: Disk, entries: seq<Entry>, e: Entry)
    requires Laid(rules, disk, entries + [FolderAt(Tree.Parent(e.name))], false) && e.content.Alias?
    ensures Laid(rules, disk, entries + [e], false)
  {
    hide Laid, Holds, IsFolder;
    var before := entries + [FolderAt(Tree.Parent(e.name))];
    forall path ensures IsFolder(rules, before, path) == IsFolder(rules, entries + [e], path) {
      MoreFolders(rules, entries, FolderAt(Tree.Parent(e.name)), path);
      MoreFolders(rules, entries, e, path);
      ParentIsPrefix(rules, e.name, path);
      RootIsFolder(rules, entries);
    }
    forall path, data ensures Holds(rules, before, path, File(data)) == Holds(rules, entries + [e], path, File(data)) {
      MoreHeld(rules, entries, FolderAt(Tree.Parent(e.name)), path, File(data));
      MoreHeld(rules, entries, e, path, File(data));
    }
    SameLayout(rules, disk, before, entries + [e]);
  }

  lemma LayFile(rules: Rules, disk: Disk, entries: seq<Entry>, e: Entry)
    requires Laid(rules, disk, entries + [FolderAt(Tree.Parent(e.name))], false) && e.content.File?
    ensures var key := Key(rules, e.name);
            && (key !in disk <==> e.name != [] && !IsFolder(rules, entries, key)
                                  && forall o <- entries :: o.content.File? ==> Key(rules, o.name) != key)
            && (key !in disk ==> Laid(rules, disk[key := e.content], entries + [e], false))
  {
    hide Holds, IsFolder;
    var before, key := entries + [FolderAt(Tree.Parent(e.name))], Key(rules, e.name);
    ParentIsPrefix(rules, e.name, key);
    RootIsFolder(rules, before);
    MoreFolders(rules, entries, FolderAt(Tree.Parent(e.name)), key);
    assert key in disk ==> At(disk, key) == Some(disk[key]);
    assert At(disk, key) == Some(Folder) <==> IsFolder(rules, before, key);
    forall data
      ensures At(disk, key) == Some(File(data)) <==>
              exists o <- entries :: o.content == File(data) && Key(rules, o.name) == key
    {
      MoreHeld(rules, entries, FolderAt(Tree.Parent(e.name)), key, File(data));
      HeldBySome(rules, entries, key, File(data));
    }
    if key !in disk {
      var after := disk[key := e.content];
      assert At(disk, key) == None;
      forall path ensures At(after, path) == if path == key then Some(e.content) else At(disk, path) {}
      forall path ensures At(after, path) == Some(Folder) <==> IsFolder(rules, entries + [e], path) {
        FileKeepsFolders(rules, entries, e, path);
        assert At(disk, path) == Some(Folder) <==> IsFolder(rules, before, path);
      }
      forall path, data ensures At(after, path) == Some(File(data)) <==> Holds(rules, entries + [e], path, File(data)) {
        MoreHeld(rules, entries, FolderAt(Tree.Parent(e.name)), path, File(data));
        MoreHeld(rules, entries, e, path, File(data));
        assert At(disk, path) == Some(File(data)) <==> Holds(rules, before, path, File(data));
      }
      forall path, target ensures At(after, path) != Some(Alias(target)) && At(after, path) != Some(Device) {
        assert At(disk, path) != Some(Alias(target)) && At(disk, path) != Some(Device);
      }
      LaidInParts(rules, after, entries + [e]);
    }
  }

  lemma FileKeepsFolders(rules: Rules, entries: seq<Entry>, e: Entry, path: Path)
    requires e.content.File?
    ensures IsFolder(rules, entries + [e], path) == IsFolder(rules, entries + [FolderAt(Tree.Parent(e.name))], path)
  {
    hide IsFolder;
    MoreFolders(rules, entries, FolderAt(Tree.Parent(e.name)), path);
    MoreFolders(rules, entries, e, path);
    ParentIsPrefix(rules, e.name, path);
    RootIsFolder(rules, entries);
  }

  lemma LaidInParts(rules: Rules, disk: Disk, entries: seq<Entry>)
    requires forall path :: At(disk, path) == Some(Folder) <==> IsFolder(rules, entries, path)
    requires forall path, data :: At(disk, path) == Some(File(data)) <==> Holds(rules, entries, path, File(data))
    requires forall path, target :: At(disk, path) != Some(Alias(target)) && At(disk, path) != Some(Device)
    ensures Laid(rules, disk, entries, false)
  {
    hide IsFolder, Holds, At;
    forall path, content
      ensures At(disk, path) == Some(content) <==>
              match content
              case Folder => IsFolder(rules, entries, path)
              case File(_) => Holds(rules, entries, path, content)
              case _ => false
    {
      match content {
        case Folder =>
        case File(data) =>
        case Alias(target) =>
        case Device => assert At(disk, path) != Some(Alias([]));
      }
    }
  }

  /** Where an entry may be placed: no file on the way, and for a file nothing there. */
  predicate Fits(rules: Rules, entries: seq<Entry>, e: Entry) {
    && Supported(e)
    && FilesClear(rules, entries, Key(rules, Tree.Parent(e.name)))
    && match e.content
       case Folder => FilesClear(rules, entries, Key(rules, e.name))
       case File(data) =>
         && e.name != [] && !IsFolder(rules, entries, Key(rules, e.name))
         && forall o <- entries :: o.content.File? ==> Key(rules, o.name) != Key(rules, e.name)
       case _ => true
  }

  /** Placing an entry extends the layout by exactly that entry. */
  lemma PlaceLays(rules: Rules, s: State, walked: Walked, entries: seq<Entry>, e: Entry)
    requires walked.ok && e.size >= 0 && FilesClear(rules, entries, Key(rules, Tree.Parent(e.name)))
    requires Laid(rules, walked.disk, entries + [FolderAt(Tree.Parent(e.name))], false) && s.disk == walked.disk
    ensures var placed := Place(rules, s, e);
            && (placed.Some? <==> Fits(rules, entries, e))
            && (placed.Some? ==>
                  && Laid(rules, placed.value.disk, entries + [e], false)
                  && placed.value
                       == s.(disk := placed.value.disk, links := if e.content.Alias? then s.links + [e] else s.links))
  {
    hide Walk, Index.LinkAllowed, Laid, FilesClear, IsFolder;
    match e.content {
      case Folder => LayFolder(rules, s.disk, entries, e);
      case Alias(_) => LayLink(rules, s.disk, entries, e);
      case File(_) => LayFile(rules, s.disk, entries, e);
      case Device =>
    }
  }

  // ----- One entry more -----

  /** What a further entry must meet. */
  ghost predicate Joins(rules: Rules, entries: seq<Entry>, e: Entry) {
    && |entries| < Index.MAX_ENTRIES && Pairs.Sum(entries, SizeOf) + e.size <= Index.MAX_BYTES
    && Consistent(rules, Spelled(entries) + Prefixes(e.name))
    && (forall o <- entries :: rules.fold(o.name) != rules.fold(e.name))
    && Unblocked(rules, entries, e)
  }

  predicate Unblocked(rules: Rules, entries: seq<Entry>, e: Entry) {
    && Supported(e) && (e.content.File? ==> e.name != [])
    && (forall o <- entries :: o.content.File? ==> !Blocks(rules, o, e))
    && (forall o <- entries :: e.content.File? ==> !Blocks(rules, e, o))
  }

  lemma ProceedsFurther(rules: Rules, entries: seq<Entry>, e: Entry)
    ensures Proceeds(rules, entries + [e]) <==> Proceeds(rules, entries) && Joins(rules, entries, e)
  {
    hide Blocks, Supported;
    Appended(entries, e);
    var all := entries + [e];
    Pairs.PairwiseLast(entries, e, DistinctFolds(rules));
    assert Spelled(all) == Spelled(entries) + Prefixes(e.name);
    assert Pairs.Sum(all, SizeOf) == Pairs.Sum(entries, SizeOf) + e.size;
    SupportedHasSize(e);
  }

  lemma SupportedHasSize(e: Entry)
    ensures Supported(e) ==> e.size >= 0
  {}

  /** Placement depends only on files in the way, in either direction: distinct folds leave
      no other collision on any bounded host. */
  lemma FitsIsUnblocked(rules: Rules, entries: seq<Entry>, e: Entry)
    requires HostBounded(rules) && (forall o <- entries :: rules.fold(o.name) != rules.fold(e.name))
    requires forall o <- entries :: o.content.File? ==> o.name != []
    ensures Fits(rules, entries, e) <==> Unblocked(rules, entries, e)
  {
    hide Index.LinkAllowed;
    var key, parent := Key(rules, e.name), Key(rules, Tree.Parent(e.name));
    forall o <- entries ensures Key(rules, o.name) != key {}
    forall o <- entries ensures IsPrefix(Key(rules, o.name), key) <==> IsPrefix(Key(rules, o.name), parent) {
      ParentIsPrefix(rules, e.name, Key(rules, o.name));
    }
    if e.name != [] {
      assert IsFolder(rules, entries, key) <==> exists o <- entries :: FolderOf(rules, o, key);
      forall o <- entries ensures FolderOf(rules, o, key) <==> IsPrefix(key, Key(rules, o.name)) {}
    }
  }

  function Links(entries: seq<Entry>): seq<Entry> {
    if entries == [] then []
    else
      var last := entries[|entries| - 1];
      Links(entries[..|entries| - 1]) + if last.content.Alias? then [last] else []
  }

  ghost predicate Reached(rules: Rules, s: State, entries: seq<Entry>) {
    && |s.seen| == |entries|
    && (forall e <- entries :: rules.fold(e.name) in s.seen)
    && (forall f :: f in s.seen ==> exists e <- entries :: rules.fold(e.name) == f)
    && Tracks(rules, s.spelling, Spelled(entries))
    && s.total == Pairs.Sum(entries, SizeOf) && s.links == Links(entries)
    && Laid(rules, s.disk, entries, false)
  }

  lemma TakeDecides(rules: Rules, s: State, entries: seq<Entry>, e: Entry)
    requires HostBounded(rules) && Proceeds(rules, entries) && Reached(rules, s, entries)
    requires !(e.name == [] && e.content == Folder)
    ensures Take(rules, s, e).Some? <==> Joins(rules, entries, e)
    ensures Take(rules, s, e).Some? ==> Reached(rules, Take(rules, s, e).value, entries + [e])
  {
    hide HostBounded, Walk, Laid, Tracks, Fits, Place, Unblocked, Consistent, Take, FilesClear, Checked, Entered;
    hide Reached, Prefixes;
    TakeUnfolds(rules, s, e);
    TakeEnters(rules, s, entries, e);
    UnblockedHasSize(rules, entries, e);
    if Checked(rules, s, e) {
      FitsIsUnblocked(rules, entries, e);
      PlaceDecides(rules, s, entries, e);
    }
  }

  lemma PlaceDecides(rules: Rules, s: State, entries: seq<Entry>, e: Entry)
    requires Reached(rules, s, entries) && Checked(rules, s, e)
    ensures var ok := Walk(s.disk, [], Key(rules, Tree.Parent(e.name))).ok;
            var placed := Place(rules, Entered(rules, s, e), e);
            && (ok && placed.Some? <==> Fits(rules, entries, e))
            && (ok && placed.Some? ==> Reached(rules, placed.value, entries + [e]))
  {
    TakeEnters(rules, s, entries, e);
    hide Walk, Laid, Tracks, Fits, Place, Consistent, Spell, FilesClear, Prefixes;
    WalkLays(rules, s.disk, entries, Tree.Parent(e.name));
    var walked, next := Walk(s.disk, [], Key(rules, Tree.Parent(e.name))), Entered(rules, s, e);
    if walked.ok {
      PlaceLays(rules, next, walked, entries, e);
      ReachedFurther(rules, s, entries, e, Place(rules, next, e));
    } else {
      FitsIsClear(rules, entries, e);
    }
  }

  /** The checks of an entry before any file system operation. */
  predicate Checked(rules: Rules, s: State, e: Entry) {
    && |s.seen| < Index.MAX_ENTRIES && Spell(rules, s.spelling, e.name).Some?
    && rules.fold(e.name) !in s.seen && 0 <= e.size <= Index.MAX_BYTES - s.total
  }

  function Entered(rules: Rules, s: State, e: Entry): State
    requires Checked(rules, s, e)
  {
    State(Walk(s.disk, [], Key(rules, Tree.Parent(e.name))).disk, s.seen + {rules.fold(e.name)},
          Spell(rules, s.spelling, e.name).value, s.total + e.size, s.links)
  }

  lemma TakeUnfolds(rules: Rules, s: State, e: Entry)
    requires !(e.name == [] && e.content == Folder)
    ensures Take(rules, s, e)
         == if Checked(rules, s, e) && Walk(s.disk, [], Key(rules, Tree.Parent(e.name))).ok
            then Place(rules, Entered(rules, s, e), e) else None
  {
    hide Walk, Place, Spell;
  }

  lemma TakeEnters(rules: Rules, s: State, entries: seq<Entry>, e: Entry)
    requires Reached(rules, s, entries)
    ensures e.size >= 0 ==>
              (Checked(rules, s, e) <==>
                && |entries| < Index.MAX_ENTRIES && Pairs.Sum(entries, SizeOf) + e.size <= Index.MAX_BYTES
                && Consistent(rules, Spelled(entries) + Prefixes(e.name))
                && (forall o <- entries :: rules.fold(o.name) != rules.fold(e.name)))
    ensures Checked(rules, s, e) ==>
              e.size >= 0 && Tracks(rules, Entered(rules, s, e).spelling, Spelled(entries) + Prefixes(e.name))
  {
    SpellingDecides(rules, s.spelling, Spelled(entries), e.name);
    hide Walk, Laid, Tracks, Consistent, Spell, Prefixes;
  }

  lemma UnblockedHasSize(rules: Rules, entries: seq<Entry>, e: Entry)
    ensures Unblocked(rules, entries, e) ==> e.size >= 0
  {}

  lemma FitsIsClear(rules: Rules, entries: seq<Entry>, e: Entry)
    ensures Fits(rules, entries, e) ==> FilesClear(rules, entries, Key(rules, Tree.Parent(e.name)))
  {}

  lemma ReachedFurther(rules: Rules, s: State, entries: seq<Entry>, e: Entry, placed: Option<State>)
    requires Reached(rules, s, entries) && rules.fold(e.name) !in s.seen
    requires placed.Some? ==>
               && Laid(rules, placed.value.disk, entries + [e], false)
               && placed.value.seen == s.seen + {rules.fold(e.name)} && placed.value.total == s.total + e.size
               && placed.value.links == (if e.content.Alias? then s.links + [e] else s.links)
               && Tracks(rules, placed.value.spelling, Spelled(entries) + Prefixes(e.name))
    ensures placed.Some? ==> Reached(rules, placed.value, entries + [e])
  {
    hide Laid, Tracks, Prefixes;
    Appended(entries, e);
    var all := entries + [e];
    assert Links(all) == Links(entries) + if e.content.Alias? then [e] else [];
  }

  predicate NoRoots(entries: seq<Entry>) {
    forall e <- entries :: !(e.name == [] && e.content == Folder)
  }

  lemma {:induction false} TakeAllDecides(rules: Rules, entries: seq<Entry>)
    requires HostBounded(rules) && NoRoots(entries)
    ensures TakeAll(rules, entries).Some? <==> Proceeds(rules, entries)
    ensures TakeAll(rules, entries).Some? ==> Reached(rules, TakeAll(rules, entries).value, entries)
    decreases |entries|
  {
    if entries == [] {
      NothingTaken(rules);
    } else {
      hide HostBounded, Proceeds, Reached, Take, Joins;
      var before, last := entries[..|entries| - 1], entries[|entries| - 1];
      assert entries == before + [last];
      TakeAllDecides(rules, before);
      ProceedsFurther(rules, before, last);
      if TakeAll(rules, before).Some? {
        TakeDecides(rules, TakeAll(rules, before).value, before, last);
      }
    }
  }

  lemma NothingTaken(rules: Rules)
    ensures Proceeds(rules, []) && Reached(rules, Start, [])
  {}

  // ----- Installing the links -----

  function DistinctKeys(rules: Rules): (Entry, Entry) -> bool {
    (a: Entry, b: Entry) => Key(rules, a.name) != Key(rules, b.name)
  }

  lemma {:induction false} InstallDecides(rules: Rules, disk: Disk, links: seq<Entry>)
    ensures Install(rules, disk, links).Some? <==>
              ((forall l <- links :: Key(rules, l.name) !in disk) && Pairs.Pairwise(links, DistinctKeys(rules)))
    ensures Install(rules, disk, links).Some? ==>
              forall path, content :: At(Install(rules, disk, links).value, path) == Some(content) <==>
                (At(disk, path) == Some(content) || Holds(rules, links, path, content))
    decreases |links|
  {
    if links != [] {
      var key, rest := Key(rules, links[0].name), links[1..];
      assert links == [links[0]] + rest;
      assert forall l :: l in links <==> l == links[0] || l in rest;
      var more := disk[key := links[0].content];
      InstallDecides(rules, more, rest);
      Pairs.PairwiseFirst(links[0], rest, DistinctKeys(rules));
      forall path, content
        ensures Holds(rules, links, path, content) <==>
                (path == key && links[0].content == content) || Holds(rules, rest, path, content) {}
    }
  }

  lemma {:induction false} LinksAreEntries(entries: seq<Entry>)
    ensures forall e :: e in Links(entries) <==> e in entries && e.content.Alias?
  {
    if entries != [] {
      var before, last := entries[..|entries| - 1], entries[|entries| - 1];
      LinksAreEntries(before);
      assert entries == before + [last];
    }
  }

  lemma {:induction false} LinksStayApart(rules: Rules, entries: seq<Entry>)
    requires HostBounded(rules) && Pairs.Pairwise(entries, DistinctFolds(rules))
    ensures Pairs.Pairwise(Links(entries), DistinctKeys(rules))
  {
    if entries != [] {
      var n := |entries| - 1;
      var before, last := entries[..n], entries[n];
      forall i, j | 0 <= i < j < n ensures DistinctFolds(rules)(before[i], before[j]) {
        assert DistinctFolds(rules)(entries[i], entries[j]);
      }
      LinksStayApart(rules, before);
      LinksAreEntries(before);
      forall l <- Links(before) ensures DistinctKeys(rules)(l, last) {
        var i :| 0 <= i < n && before[i] == l;
        assert DistinctFolds(rules)(entries[i], entries[n]);
        assert rules.fold(l.name) != rules.fold(last.name);
      }
      Pairs.PairwiseLast(Links(before), last, DistinctKeys(rules));
    }
  }

  /** Links install exactly when nothing lies at or below any of them. */
  lemma LinksInstall(rules: Rules, disk: Disk, entries: seq<Entry>)
    requires HostBounded(rules) && Proceeds(rules, entries) && Laid(rules, disk, entries, false)
    ensures var r := Install(rules, disk, Links(entries));
            && (r.Some? <==> LinksFree(rules, entries))
            && (r.Some? ==> Laid(rules, r.value, entries, true))
  {
    hide Install, Spelled, Consistent, Supported, IsFolder, Holds;
    var links := Links(entries);
    LinksAreEntries(entries);
    LinksStayApart(rules, entries);
    InstallDecides(rules, disk, links);
    forall l <- links
      ensures Key(rules, l.name) in disk <==> l.name == [] || exists o <- entries :: o != l && Blocks(rules, l, o)
    {
      LinkIsTaken(rules, disk, entries, l);
    }
    forall path, content
      ensures Holds(rules, links, path, content) <==> content.Alias? && Holds(rules, entries, path, content)
    {
      HeldBySome(rules, links, path, content);
      HeldBySome(rules, entries, path, content);
    }
  }

  lemma LinkIsTaken(rules: Rules, disk: Disk, entries: seq<Entry>, l: Entry)
    requires HostBounded(rules) && Pairs.Pairwise(entries, DistinctFolds(rules)) && Laid(rules, disk, entries, false)
    requires l in entries && l.content.Alias?
    ensures Key(rules, l.name) in disk <==> l.name == [] || exists o <- entries :: o != l && Blocks(rules, l, o)
  {
    var key := Key(rules, l.name);
    forall o <- entries | o != l ensures Key(rules, o.name) != key {
      EntriesDiffer(rules, entries, o, l);
    }
    assert key in disk ==> At(disk, key) == Some(disk[key]);
    assert At(disk, key) == Some(Folder) <==> IsFolder(rules, entries, key);
    assert l.name == [] <==> key == [];
    forall content: Content | content.File? ensures At(disk, key) != Some(content) {
      HeldBySome(rules, entries, key, content);
    }
    forall o <- entries ensures FolderOf(rules, o, key) <==> o != l && Blocks(rules, l, o) {}
  }

  lemma EntriesDiffer(rules: Rules, entries: seq<Entry>, a: Entry, b: Entry)
    requires HostBounded(rules) && Pairs.Pairwise(entries, DistinctFolds(rules))
    requires a in entries && b in entries && a != b
    ensures Key(rules, a.name) != Key(rules, b.name) && rules.fold(a.name) != rules.fold(b.name)
  {
    var i :| 0 <= i < |entries| && entries[i] == a;
    var j :| 0 <= j < |entries| && entries[j] == b;
    assert DistinctFolds(rules)(entries[if i < j then i else j], entries[if i < j then j else i]);
  }

  // ----- Whole archives -----

  /** An archive extracts exactly when it is accepted, and then the disk is its layout. */
  lemma ExtractionIsTheLayout(rules: Rules, entries: seq<Entry>)
    requires HostBounded(rules) && NoRoots(entries)
    ensures Extract(rules, entries).Some? <==> Accepted(rules, entries)
    ensures Extract(rules, entries).Some? ==> Laid(rules, Extract(rules, entries).value, entries, true)
  {
    hide HostBounded, Proceeds, LinksFree, TakeAll, Install, Laid;
    TakeAllDecides(rules, entries);
    if TakeAll(rules, entries).Some? {
      LinksInstall(rules, TakeAll(rules, entries).value.disk, entries);
    }
  }

  /** No two accepted entries collide on any bounded host, and names that fold alike are
      spelled alike, at every prefix. */
  lemma AcceptedNamesAreCaseSafe(rules: Rules, entries: seq<Entry>, a: Entry, b: Entry)
    requires HostBounded(rules) && Accepted(rules, entries) && a in entries && b in entries
    ensures a != b ==> Key(rules, a.name) != Key(rules, b.name) && rules.fold(a.name) != rules.fold(b.name)
    ensures forall p, q :: p in Prefixes(a.name) && q in Prefixes(b.name) && rules.fold(p) == rules.fold(q) ==>
              rules.nfd(p) == rules.nfd(q)
  {
    if a != b {
      EntriesDiffer(rules, entries, a, b);
    }
    hide Prefixes;
    PrefixesAreSpelled(entries, a);
    PrefixesAreSpelled(entries, b);
  }

  lemma {:induction false} PrefixesAreSpelled(entries: seq<Entry>, e: Entry)
    requires e in entries
    ensures Prefixes(e.name) <= Spelled(entries)
  {
    hide Prefixes;
    var before, last := entries[..|entries| - 1], entries[|entries| - 1];
    assert entries == before + [last];
    if e in before {
      PrefixesAreSpelled(before, e);
    }
  }

  lemma {:induction false} SpelledIgnoresOrder(a: seq<Entry>, b: seq<Entry>)
    requires forall e :: e in a ==> e in b
    ensures Spelled(a) <= Spelled(b)
  {
    hide Prefixes;
    if a != [] {
      var last := a[|a| - 1];
      assert last in b;
      PrefixesAreSpelled(b, last);
      SpelledIgnoresOrder(a[..|a| - 1], b);
    }
  }

  lemma AcceptedIgnoresOrder(rules: Rules, a: seq<Entry>, b: seq<Entry>)
    requires multiset(a) == multiset(b) && Accepted(rules, a)
    ensures Accepted(rules, b)
  {
    hide Supported, Blocks, Consistent, Spelled;
    Pairs.SameElements(a, b);
    SpelledIgnoresOrder(a, b);
    SpelledIgnoresOrder(b, a);
    assert Spelled(a) == Spelled(b);
    Pairs.SumIgnoresOrder(a, b, SizeOf);
    Pairs.PairwiseIgnoresOrder(a, b, DistinctFolds(rules));
  }

  lemma LayoutIsOne(rules: Rules, x: Disk, y: Disk, a: seq<Entry>, b: seq<Entry>)
    requires forall e :: e in a <==> e in b
    requires Laid(rules, x, a, true) && Laid(rules, y, b, true)
    ensures x == y
  {
    forall path, content ensures At(x, path) == Some(content) <==> At(y, path) == Some(content) {
      assert IsFolder(rules, a, path) <==> IsFolder(rules, b, path);
      assert Holds(rules, a, path, content) <==> Holds(rules, b, path, content);
    }
    forall path ensures At(x, path) == At(y, path) {
      assert At(x, path).Some? ==> At(x, path) == Some(At(x, path).value);
      assert At(y, path).Some? ==> At(y, path) == Some(At(y, path).value);
    }
    assert forall path :: path in x <==> At(x, path).Some?;
    assert forall path :: path in y <==> At(y, path).Some?;
    assert forall path :: path in x ==> At(x, path) == Some(x[path]) && At(y, path) == Some(y[path]);
  }

  function Kept(entries: seq<Entry>): seq<Entry> {
    if entries == [] then []
    else
      var last := entries[|entries| - 1];
      Kept(entries[..|entries| - 1]) + if last.name == [] && last.content == Folder then [] else [last]
  }

  lemma {:induction false} RootsAreIgnored(rules: Rules, entries: seq<Entry>)
    ensures TakeAll(rules, entries) == TakeAll(rules, Kept(entries)) && NoRoots(Kept(entries))
    ensures forall e :: multiset(Kept(entries))[e] == if e.name == [] && e.content == Folder then 0
            else multiset(entries)[e]
    decreases |entries|
  {
    if entries != [] {
      hide Spell, Walk, Place;
      var before, last := entries[..|entries| - 1], entries[|entries| - 1];
      assert entries == before + [last];
      RootsAreIgnored(rules, before);
      if last.name == [] && last.content == Folder {
        assert Kept(entries) == Kept(before);
      } else {
        assert Kept(entries) == Kept(before) + [last];
        assert Kept(entries)[..|Kept(entries)| - 1] == Kept(before);
      }
    }
  }

  /** The order of an archive's entries decides neither whether it extracts nor what it
      leaves on disk. */
  lemma OrderDoesNotMatter(rules: Rules, a: seq<Entry>, b: seq<Entry>)
    requires HostBounded(rules) && multiset(a) == multiset(b)
    ensures Extract(rules, a) == Extract(rules, b)
  {
    hide HostBounded, Accepted, TakeAll, Install, Laid, Kept, NoRoots;
    RootsAreIgnored(rules, a);
    RootsAreIgnored(rules, b);
    var x, y := Kept(a), Kept(b);
    assert multiset(x) == multiset(y);
    Pairs.SameElements(x, y);
    ExtractionIsTheLayout(rules, x);
    ExtractionIsTheLayout(rules, y);
    if Accepted(rules, x) {
      AcceptedIgnoresOrder(rules, x, y);
      LayoutIsOne(rules, Extract(rules, x).value, Extract(rules, y).value, x, y);
    } else if Accepted(rules, y) {
      AcceptedIgnoresOrder(rules, y, x);
    }
  }
}
