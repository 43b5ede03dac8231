/**
 Indexing a canonical TAR (internal/archive/tarfs.go, IndexTar), over decoded
 headers. Case folding and normalization are one arbitrary function of a name.
 */
module ArchiveIndex {
  import opened Wrappers
  import opened ArchiveTree

  const MAX_ENTRIES: nat := 100000
  const MAX_BYTES: nat := 16 * 1024 * 1024 * 1024
  const MAX_METADATA: nat := 128 * 1024 * 1024
  const TERMINATOR: nat := 1024

  datatype Kind = RegularFile | DirectoryEntry | Symlink | OtherEntry

  /** One header, read from `length` bytes of the stream; `plain` says that its mode and
      attributes are supported and that it holds no signature sidecar. */
  datatype Header = Header(name: seq<string>, kind: Kind, target: seq<string>, size: int, length: nat, plain: bool)

  /** Where a member's content lies in the stream. */
  datatype Extent = Extent(start: int, end: int)

  function NodeOf(h: Header): Node {
    match h.kind
    case DirectoryEntry => Directory
    case Symlink => Link(h.target)
    case _ => Regular
  }

  /** Depth of a relative path after cleaning, or -1 once it climbs above its start. */
  function Depth(parts: seq<string>, depth: int): int {
    if depth < 0 || parts == [] then depth
    else if parts[0] == "" || parts[0] == "." then Depth(parts[1..], depth)
    else if parts[0] == ".." then Depth(parts[1..], depth - 1)
    else Depth(parts[1..], depth + 1)
  }

  /** checkLink: a relative target that does not climb out of the archive lexically. */
  predicate LinkAllowed(name: seq<string>, target: seq<string>) {
    && target != [] && target[0] != "" && (forall i :: 0 <= i < |target| ==> '\0' !in target[i])
    && Depth(target, |Parent(name)|) >= 0
  }

  /** The index after the headers `added`, with the stream read up to `at`. */
  datatype State = State(size: nat, nodes: Tree, children: map<Path, seq<string>>, spellings: map<string, Path>,
                         total: int,
                         metadata: nat, at: int, extents: seq<Extent>, added: seq<Header>)

  function Full(root: string, name: seq<string>): Path {
    [root] + name
  }

  function Initial(root: string, size: nat): State {
    State(size, map[[] := Directory, [root] := Directory], map[[] := [root], [root] := []], map[], 0, 0, 0, [], [])
  }

  /** Contents are padded to whole blocks. */
  function Pad(size: int): (pad: nat)
    ensures (size + pad) % 512 == 0 && pad < 512
  {
    (512 - size % 512) % 512
  }

  /** Everything the loop body demands of the next header. */
  predicate Acceptable(root: string, fold: Path -> string, s: State, h: Header) {
    && |s.nodes| - 2 < MAX_ENTRIES && s.metadata + h.length <= MAX_METADATA
    && h.name != [] && (forall i :: 0 <= i < |h.name| ==> Plain(h.name[i]))
    && fold(h.name) !in s.spellings
    && IsDirectory(s.nodes, Parent(Full(root, h.name)))
    && h.plain && h.kind != OtherEntry
    && 0 <= h.size <= MAX_BYTES - s.total && h.size <= s.size - (s.at + h.length)
    && (h.kind == Symlink ==> LinkAllowed(h.name, h.target))
    && (h.kind != RegularFile ==> h.size == 0)
  }

  function Children(s: State, path: Path): seq<string> {
    if path in s.children then s.children[path] else []
  }

  /** One more member, filed under its parent, with its content at `offset`. */
  function Stored(s: State, folded: string, h: Header, full: Path, parent: Path, offset: int): State
    requires h.name != []
  {
    State(s.size, s.nodes[full := NodeOf(h)],
          s.children[parent := Children(s, parent) + [h.name[|h.name| - 1]]][full := []],
          s.spellings[folded := h.name],
          if h.kind == RegularFile then s.total + h.size else s.total,
          s.metadata + h.length,
          offset + h.size + Pad(h.size),
          s.extents + [Extent(offset, offset + h.size)],
          s.added + [h])
  }

  function Step(root: string, fold: Path -> string, s: State, h: Header): State
    requires h.name != []
  {
    var full := Full(root, h.name);
    Stored(s, fold(h.name), h, full, Parent(full), s.at + h.length)
  }

  /** The nodes are the two roots and the headers' own, at the headers' paths. */
  ghost predicate Placed(root: string, s: State) {
    && IsDirectory(s.nodes, [root])
    && (forall i :: 0 <= i < |s.added| ==>
          s.added[i].name != [] && Full(root, s.added[i].name) in s.nodes
            && s.nodes[Full(root, s.added[i].name)] == NodeOf(s.added[i]))
    && (forall path :: path in s.nodes ==>
          path == [] || path == [root] || exists i :: 0 <= i < |s.added| && path == Full(root, s.added[i].name))
  }

  /** No two names fold to the same spelling. */
  ghost predicate Spelled(fold: Path -> string, s: State) {
    && (forall i :: 0 <= i < |s.added| ==> fold(s.added[i].name) in s.spellings)
    && (forall i, j :: 0 <= i < j < |s.added| ==> fold(s.added[i].name) != fold(s.added[j].name))
  }

  /** The listing of a node names exactly what lies in it, each once. */
  ghost predicate Lists(s: State, path: Path) {
    && path in s.children
    && (forall n :: n in s.children[path] <==> path + [n] in s.nodes)
    && (forall i, j :: 0 <= i < j < |s.children[path]| ==> s.children[path][i] != s.children[path][j])
  }

  ghost predicate Listed(s: State) {
    forall path :: path in s.nodes ==> Lists(s, path)
  }

  /** Contents lie in the stream, in the order of their headers, and share no byte. */
  predicate Separate(s: State) {
    && |s.extents| == |s.added|
    && (forall i :: 0 <= i < |s.extents| ==>
          && 0 <= s.extents[i].start && s.extents[i].end == s.extents[i].start + s.added[i].size
          && 0 <= s.added[i].size && s.extents[i].end <= s.size && s.extents[i].end <= s.at)
    && (forall i, j :: 0 <= i < j < |s.extents| ==> s.extents[i].end <= s.extents[j].start)
    && 0 <= s.at
  }

  ghost predicate Indexed(root: string, fold: Path -> string, s: State) {
    WellFormed(s.nodes) && Placed(root, s) && Spelled(fold, s) && Listed(s) && Separate(s)
  }

  lemma StepSeparates(root: string, fold: Path -> string, s: State, h: Header)
    requires Separate(s) && Acceptable(root, fold, s, h) && Parent(Full(root, h.name)) in s.children
    ensures Separate(Step(root, fold, s, h))
  {
    hide LinkAllowed;
  }

  lemma InitialIsIndexed(root: string, fold: Path -> string, size: nat)
    requires Plain(root)
    ensures Indexed(root, fold, Initial(root, size))
  {
    var s := Initial(root, size);
    assert forall path :: path in s.nodes ==> path == [] || path == [root];
    forall n
      ensures (n in s.children[[]] <==> [] + [n] in s.nodes) && (n in s.children[[root]] <==> [root] + [n] in s.nodes)
    {
      assert [] + [n] == [n] && |[root] + [n]| == 2;
    }
  }

  /** A name with a new folding is a new path. */
  lemma NewSpellingIsNewPath(root: string, fold: Path -> string, s: State, h: Header)
    requires Placed(root, s) && Spelled(fold, s) && h.name != [] && fold(h.name) !in s.spellings
    ensures Full(root, h.name) !in s.nodes
  {
    assert |Full(root, h.name)| > 1;
    forall i | 0 <= i < |s.added| ensures Full(root, s.added[i].name) != Full(root, h.name) {
      assert Full(root, s.added[i].name)[1..] == s.added[i].name && Full(root, h.name)[1..] == h.name;
    }
  }

  lemma StepPlaces(root: string, fold: Path -> string, s: State, h: Header)
    requires Placed(root, s) && h.name != [] && h.size >= 0 && Full(root, h.name) !in s.nodes
    requires Parent(Full(root, h.name)) in s.children
    ensures Placed(root, Step(root, fold, s, h))
  {
    var m := Step(root, fold, s, h);
    assert m.added[|s.added|] == h;
    forall path | path in m.nodes && path != [] && path != [root]
      ensures exists i :: 0 <= i < |m.added| && path == Full(root, m.added[i].name)
    {
      if path != Full(root, h.name) {
        var i :| 0 <= i < |s.added| && path == Full(root, s.added[i].name);
        assert m.added[i] == s.added[i];
      }
    }
  }

  lemma StepSpells(root: string, fold: Path -> string, s: State, h: Header)
    requires Spelled(fold, s) && h.name != [] && h.size >= 0 && fold(h.name) !in s.spellings
    requires Parent(Full(root, h.name)) in s.children
    ensures Spelled(fold, Step(root, fold, s, h))
  {}

  lemma StepIsWellFormed(t: Tree, full: Path, node: Node)
    requires WellFormed(t) && full !in t && full != [] && Plain(full[|full| - 1]) && IsDirectory(t, Parent(full))
    ensures WellFormed(t[full := node])
  {
    var after := t[full := node];
    forall path | path in after ensures InDirectory(after, path) {
      assert path in t ==> InDirectory(t, path);
    }
  }

  lemma StepLists(root: string, fold: Path -> string, s: State, h: Header, path: Path)
    requires WellFormed(s.nodes) && Listed(s) && h.name != [] && h.size >= 0 && Full(root, h.name) !in s.nodes
    requires IsDirectory(s.nodes, Parent(Full(root, h.name))) && path in Step(root, fold, s, h).nodes
    ensures Lists(Step(root, fold, s, h), path)
  {
    hide WellFormed;
    var m := Step(root, fold, s, h);
    var full, last := Full(root, h.name), h.name[|h.name| - 1];
    assert full == Parent(full) + [last];
    assert path == full || Lists(s, path);
    if path == full {
      forall n ensures path + [n] !in m.nodes {
        NothingBelow(s.nodes, full, n);
      }
    } else {
      hide Full, Lists, Parent;
      forall n ensures path + [n] == full <==> path == full[..|full| - 1] && n == full[|full| - 1] {
        assert (path + [n])[..|path|] == path;
      }
      ListsOneMore(s, m, full[..|full| - 1], last, path);
    }
  }

  lemma ListsOneMore(s: State, m: State, parent: Path, last: string, path: Path)
    requires Lists(s, path) && path in m.children && parent + [last] !in s.nodes
    requires forall n :: path + [n] == parent + [last] <==> path == parent && n == last
    requires m.nodes.Keys == s.nodes.Keys + {parent + [last]}
    requires m.children[path] == if path == parent then s.children[path] + [last] else s.children[path]
    ensures Lists(m, path)
  {}

  lemma NothingBelow(t: Tree, path: Path, n: string)
    requires WellFormed(t) && path !in t
    ensures path + [n] !in t
  {
    assert InDirectory(t, path + [n]) ==> Parent(path + [n]) == path;
  }

  lemma StepKeeps(root: string, fold: Path -> string, s: State, h: Header)
    requires Indexed(root, fold, s) && Acceptable(root, fold, s, h)
    ensures Parent(Full(root, h.name)) in s.children && Full(root, h.name) !in s.nodes
    ensures Indexed(root, fold, Step(root, fold, s, h))
  {
    hide WellFormed, Placed, Spelled, Separate, LinkAllowed;
    assert Lists(s, Parent(Full(root, h.name)));
    NewSpellingIsNewPath(root, fold, s, h);
    StepPlaces(root, fold, s, h);
    StepSpells(root, fold, s, h);
    StepSeparates(root, fold, s, h);
    StepIsWellFormed(s.nodes, Full(root, h.name), NodeOf(h));
    forall path | path in Step(root, fold, s, h).nodes ensures Lists(Step(root, fold, s, h), path) {
      StepLists(root, fold, s, h, path);
    }
  }

  class Index {
    const root: string
    const fold: Path -> string
    const size: nat
    var nodes: Tree
    var children: map<Path, seq<string>>
    var spellings: map<string, Path>
    var total: int
    var metadata: nat
    var at: int
    var extents: seq<Extent>
    ghost var added: seq<Header>

    constructor (root: string, fold: Path -> string, size: nat)
      requires Plain(root)
      ensures Valid() && this.root == root && this.fold == fold && this.size == size && Now() == Initial(root, size)
    {
      this.root, this.fold, this.size := root, fold, size;
      var empty := Initial(root, size);
      nodes, children, spellings, added := empty.nodes, empty.children, empty.spellings, empty.added;
      total, metadata, at, extents := 0, 0, 0, [];
      new;
      InitialIsIndexed(root, fold, size);
    }

    ghost function Now(): State
      reads this
    {
      State(size, nodes, children, spellings, total, metadata, at, extents, added)
    }

    ghost predicate Valid()
      reads this
    {
      Indexed(root, fold, Now())
    }

    /** The checks of the next header. */
    method Check(h: Header) returns (ok: bool)
      requires Valid()
      ensures ok <==> Acceptable(root, fold, Now(), h)
    {
      hide Indexed, LinkAllowed;
      var offset := at + h.length;
      if |nodes| - 2 >= MAX_ENTRIES || metadata + h.length > MAX_METADATA {
        return false;
      }
      if h.name == [] || exists i :: 0 <= i < |h.name| && !Plain(h.name[i]) {
        return false;
      }
      if fold(h.name) in spellings {
        return false;
      }
      var parent := Parent(Full(root, h.name));
      if parent !in nodes || !nodes[parent].Directory? {
        return false;
      }
      if !h.plain || h.kind == OtherEntry || h.size < 0 || h.size > MAX_BYTES - total || h.size > size - offset {
        return false;
      }
      if h.kind == Symlink && !LinkAllowed(h.name, h.target) {
        return false;
      }
      return h.kind == RegularFile || h.size == 0;
    }

    /** The body of the loop over headers. */
    method Add(h: Header) returns (ok: bool)
      requires Valid()
      modifies this
      ensures Valid() && (ok <==> Acceptable(root, fold, old(Now()), h))
      ensures Now() == if ok then Step(root, fold, old(Now()), h) else old(Now())
    {
      hide Indexed, Acceptable, Stored;
      ok := Check(h);
      if !ok {
        return;
      }
      StepKeeps(root, fold, Now(), h);
      AcceptableIsNamed(root, fold, Now(), h);
      Store(h, Full(root, h.name), Parent(Full(root, h.name)), at + h.length);
    }

    /** Files an accepted member under its parent. */
    method Store(h: Header, full: Path, parent: Path, offset: int)
      requires h.name != [] && parent in children
      modifies this
      ensures Now() == Stored(old(Now()), fold(h.name), h, full, parent, offset)
    {
      hide Pad, NodeOf;
      spellings, nodes := spellings[fold(h.name) := h.name], nodes[full := NodeOf(h)];
      children := children[parent := children[parent] + [h.name[|h.name| - 1]]][full := []];
      if h.kind == RegularFile {
        total := total + h.size;
      }
      metadata, extents := metadata + h.length, extents + [Extent(offset, offset + h.size)];
      at := offset + h.size + Pad(h.size);
      added := added + [h];
    }
  }

  lemma AcceptableIsNamed(root: string, fold: Path -> string, s: State, h: Header)
    requires Acceptable(root, fold, s, h)
    ensures h.name != [] && h.size >= 0
  {}

  /** The index of the headers, if each is acceptable after those before it. */
  function IndexAfter(root: string, fold: Path -> string, size: nat, headers: seq<Header>): Option<State> {
    if headers == [] then Some(Initial(root, size))
    else
      var before, last := IndexAfter(root, fold, size, headers[..|headers| - 1]), headers[|headers| - 1];
      if before.None? || !Acceptable(root, fold, before.value, last) then None
        else Some(Step(root, fold, before.value, last))
  }

  lemma {:induction false} IndexIsIndexed(root: string, fold: Path -> string, size: nat, headers: seq<Header>)
    requires Plain(root)
    ensures var r := IndexAfter(root, fold, size, headers);
            r.Some? ==> Indexed(root, fold, r.value) && r.value.added == headers && r.value.size == size
  {
    hide Indexed, Acceptable;
    if headers == [] {
      InitialIsIndexed(root, fold, size);
    } else {
      var before, last := headers[..|headers| - 1], headers[|headers| - 1];
      assert headers == before + [last];
      IndexIsIndexed(root, fold, size, before);
      var s := IndexAfter(root, fold, size, before);
      if s.Some? && Acceptable(root, fold, s.value, last) {
        AcceptableIsNamed(root, fold, s.value, last);
        StepKeeps(root, fold, s.value, last);
      }
    }
  }

  lemma {:induction false} RejectionStays(root: string, fold: Path -> string, size: nat, headers: seq<Header>, n: nat)
    requires Plain(root) && n <= |headers| && IndexAfter(root, fold, size, headers[..n]).None?
    ensures IndexAfter(root, fold, size, headers).None?
    decreases |headers| - n
  {
    hide Acceptable, Indexed;
    if n < |headers| {
      assert headers[..n + 1][..n] == headers[..n];
      RejectionStays(root, fold, size, headers, n + 1);
    } else {
      assert headers[..n] == headers;
    }
  }

  /** Every header is acceptable after those before it, and behind the last content there is
      exactly the terminator. */
  ghost predicate Canonical(root: string, fold: Path -> string, size: nat, headers: seq<Header>, terminator: nat)
    requires Plain(root)
  {
    && TERMINATOR <= size <= MAX_BYTES && terminator == TERMINATOR
    && IndexAfter(root, fold, size, headers).Some?
    && IndexAfter(root, fold, size, headers).value.at + TERMINATOR == size
  }

  /** Indexes a stream of `size` bytes, or nothing of it; `terminator` bytes were read at its
      end when no further header was found. */
  method IndexTar(root: string, fold: Path -> string, size: nat, headers: seq<Header>, terminator: nat)
    returns (index: Index, ok: bool)
    requires Plain(root)
    ensures index.root == root && index.fold == fold && index.Valid()
    ensures ok <==> Canonical(root, fold, size, headers, terminator)
    ensures ok ==> index.Now() == IndexAfter(root, fold, size, headers).value
  {
    hide Indexed, Acceptable;
    index := new Index(root, fold, size);
    if size < TERMINATOR || size > MAX_BYTES {
      return index, false;
    }
    assert headers[..0] == [];
    for i := 0 to |headers|
      invariant fresh(index) && index.root == root && index.fold == fold && index.size == size && index.Valid()
      invariant IndexAfter(root, fold, size, headers[..i]) == Some(index.Now())
    {
      assert headers[..i + 1][..i] == headers[..i];
      ok := index.Add(headers[i]);
      if !ok {
        RejectionStays(root, fold, size, headers, i + 1);
        return;
      }
    }
    assert headers[..|headers|] == headers;
    ok := terminator == TERMINATOR && index.at + TERMINATOR == size;
  }

  /** The contents of two members share no byte, and none reaches into the terminator. */
  lemma ContentsAreSeparate(root: string, fold: Path -> string, size: nat, headers: seq<Header>, terminator: nat,
                            i: nat, j: nat)
    requires Plain(root) && Canonical(root, fold, size, headers, terminator) && i < j < |headers|
    ensures var extents := IndexAfter(root, fold, size, headers).value.extents;
            && |extents| == |headers|
            && 0 <= extents[i].start && extents[i].end == extents[i].start + headers[i].size
            && extents[i].end <= extents[j].start && extents[j].end == extents[j].start + headers[j].size
            && extents[j].end + TERMINATOR <= size
  {
    hide WellFormed, Placed, Spelled, Listed;
    IndexIsIndexed(root, fold, size, headers);
  }

  /** Every indexed file or directory is found under its own name, with no link followed. */
  lemma EntriesAreFound(root: string, fold: Path -> string, s: State, i: nat, follow: bool)
    requires Plain(root) && Indexed(root, fold, s) && i < |s.added| && s.added[i].kind != Symlink
    ensures Resolve(s.nodes, [], Full(root, s.added[i].name), follow) == Found(Full(root, s.added[i].name), LINKS)
  {
    hide WellFormed;
    var path := Full(root, s.added[i].name);
    PathIsPlain(s.nodes, path);
    forall n | 0 < n <= |path| ensures [] + path[..n] in s.nodes && !s.nodes[[] + path[..n]].Link? {
      assert [] + path[..n] == path[..n];
      if n < |path| {
        AncestorsAreDirectories(s.nodes, path, n);
      } else {
        assert path[..n] == path;
      }
    }
    assert PassesNoLink(s.nodes, [], path);
    PlainNamesResolveToThemselves(s.nodes, [], [], path, LINKS, follow);
    assert [] + path == path;
  }

  lemma {:induction false} PathIsPlain(t: Tree, path: Path)
    requires WellFormed(t) && path in t
    ensures forall i :: 0 <= i < |path| ==> Plain(path[i])
    decreases |path|
  {
    assert InDirectory(t, path);
    if path != [] {
      PathIsPlain(t, Parent(path));
    }
  }

  /** No two indexed names collide under the folding. */
  lemma NamesStayDistinct(root: string, fold: Path -> string, s: State, i: nat, j: nat)
    requires Indexed(root, fold, s) && i < j < |s.added|
    ensures fold(s.added[i].name) != fold(s.added[j].name) && s.added[i].name != s.added[j].name
  {}

  // ----- Where an accepted link leads -----

  function Ups(parts: seq<string>): nat {
    if parts == [] then 0 else Ups(parts[..|parts| - 1]) + if parts[|parts| - 1] == ".." then 1 else 0
  }

  function Downs(parts: seq<string>): nat {
    if parts == [] then 0
    else Downs(parts[..|parts| - 1]) + if parts[|parts| - 1] in ["", ".", ".."] then 0 else 1
  }

  /** No beginning of the target climbs further than the link lies deep. */
  predicate StaysInside(depth: int, target: seq<string>) {
    forall n :: 0 <= n <= |target| ==> Ups(target[..n]) <= depth + Downs(target[..n])
  }

  lemma {:induction false} CountsSplit(first: string, rest: seq<string>)
    ensures Ups([first] + rest) == Ups(rest) + if first == ".." then 1 else 0
    ensures Downs([first] + rest) == Downs(rest) + if first in ["", ".", ".."] then 0 else 1
  {
    if rest != [] {
      CountsSplit(first, rest[..|rest| - 1]);
      assert ([first] + rest)[..|rest|] == [first] + rest[..|rest| - 1];
    }
  }

  lemma {:induction false} DepthIsInside(target: seq<string>, depth: nat)
    ensures Depth(target, depth) >= 0 <==> StaysInside(depth, target)
    decreases |target|
  {
    assert target[..0] == [];
    if target != [] {
      var first, rest := target[0], target[1..];
      var next := if first == ".." then depth - 1 else if first in ["", "."] then depth else depth + 1;
      assert forall n {:trigger target[..n]} :: 1 <= n <= |target| ==> target[..n] == [first] + rest[..n - 1];
      forall n | 1 <= n <= |target|
        ensures Ups(target[..n]) - Downs(target[..n]) == Ups(rest[..n - 1]) - Downs(rest[..n - 1]) + depth - next
      {
        CountsSplit(first, rest[..n - 1]);
      }
      assert rest[..0] == [];
      if next >= 0 {
        DepthIsInside(rest, next);
        forall n | 0 <= n <= |rest| ensures target[..n + 1] == [first] + rest[..n] {}
      } else {
        assert Depth(target, depth) < 0;
        assert target[..1] == [first];
        assert Ups(target[..1]) > depth + Downs(target[..1]);
      }
    }
  }

  /** A link is accepted exactly when its target is relative and its text stays inside the
      archive at every step, counted from the directory of the link. */
  lemma LinksStayInside(name: seq<string>, target: seq<string>)
    requires name != []
    ensures LinkAllowed(name, target) <==>
            target != [] && target[0] != "" && (forall part <- target :: '\0' !in part)
              && StaysInside(|name| - 1, target)
  {
    DepthIsInside(target, |name| - 1);
    assert forall i :: 0 <= i < |target| ==> target[i] in target;
  }
}
